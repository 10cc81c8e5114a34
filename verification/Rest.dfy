/** The buffer behind a REST response: who may touch it when, what is served, and its release. */
module Rest {
  import opened Words

  /** One call of a handler on its output: copy, formatted print, or filling the raw buffer. */
  datatype Op = Write(bytes: seq<byte>) | Print(text: seq<byte>) | Raw(bytes: seq<byte>)

  /** A handler answers with a constant string, or through a buffer; `held` if it keeps a
      claim of the raw buffer at the end. */
  datatype Handler = Constant(str: seq<byte>) | Respond(size: nat, ops: seq<Op>, held: bool)

  datatype Endpoint = Endpoint(uri: string, handler: Handler)

  /** What `fs_file.data` points to. */
  datatype Data = Null | Buffer(bytes: array<byte>) | Str(str: seq<byte>)

  const MAX_SIZE: nat := 0xFFFF

  // ---------------------------------------------------------------------------------------
  // What is served
  // ---------------------------------------------------------------------------------------

  function Cut(bytes: seq<byte>, space: nat): (r: seq<byte>)
    ensures r <= bytes && |r| == if |bytes| < space then |bytes| else space
  {
    if |bytes| < space then bytes else bytes[..space]
  }

  /** What an operation adds where `space` bytes are left. */
  function Added(op: Op, space: nat): seq<byte> {
    match op
    case Write(bytes) => Cut(bytes, space)
    case Print(text) => text
    case Raw(bytes) => bytes
  }

  /** A print fits with its terminator, a raw fill fits, a write may be cut. */
  predicate Fits(op: Op, space: nat) {
    match op
    case Write(bytes) => |bytes| <= MAX_SIZE
    case Print(text) => |text| < space
    case Raw(bytes) => |bytes| <= space
  }

  /** All operations fit after `done` bytes of `size`. */
  predicate Legal(size: nat, done: nat, ops: seq<Op>)
    decreases |ops|
  {
    ops != [] ==> done <= size && Fits(ops[0], size - done)
                  && Legal(size, done + |Added(ops[0], size - done)|, ops[1..])
  }

  function Output(size: nat, done: seq<byte>, ops: seq<Op>): seq<byte>
    requires Legal(size, |done|, ops)
    decreases |ops|
  {
    if ops == [] then done
    else Output(size, done + Added(ops[0], size - |done|), ops[1..])
  }

  lemma OutputStep(size: nat, done: seq<byte>, ops: seq<Op>)
    requires ops != [] && Legal(size, |done|, ops)
    ensures |done| <= size && Fits(ops[0], size - |done|)
    ensures var next := done + Added(ops[0], size - |done|);
            Legal(size, |next|, ops[1..]) && Output(size, done, ops) == Output(size, next, ops[1..])
  {
  }

  lemma OutputEnd(size: nat, done: seq<byte>, ops: seq<Op>)
    requires ops == []
    ensures Legal(size, |done|, ops) && Output(size, done, ops) == done
  {
  }

  function BytesOf(op: Op): seq<byte> {
    match op
    case Print(text) => text
    case Write(bytes) => bytes
    case Raw(bytes) => bytes
  }

  function AllBytes(ops: seq<Op>): seq<byte> {
    if ops == [] then [] else BytesOf(ops[0]) + AllBytes(ops[1..])
  }

  /** Cutting early or at the end makes no difference. */
  lemma CutOnce(done: seq<byte>, bytes: seq<byte>, rest: seq<byte>, size: nat)
    requires |done| <= size
    ensures Cut((done + Cut(bytes, size - |done|)) + rest, size) == Cut(done + (bytes + rest), size)
  {
    if |bytes| < size - |done| {
      assert (done + bytes) + rest == done + (bytes + rest);
    } else {
      assert (done + (bytes + rest))[..size] == done + bytes[..size - |done|];
    }
  }

  /** A legal handler serves everything it wrote, in order, cut once at the size of the buffer. */
  lemma {:induction false} OutputIsCutConcatenation(size: nat, done: seq<byte>, ops: seq<Op>)
    requires |done| <= size && Legal(size, |done|, ops)
    ensures Output(size, done, ops) == Cut(done + AllBytes(ops), size)
    decreases |ops|
  {
    hide Cut;
    if ops != [] {
      var space := size - |done|;
      assert Added(ops[0], space) == Cut(BytesOf(ops[0]), space) by { FitsWhole(ops[0], space); }
      OutputIsCutConcatenation(size, done + Added(ops[0], space), ops[1..]);
      CutOnce(done, BytesOf(ops[0]), AllBytes(ops[1..]), size);
    } else {
      assert done + [] == done;
      assert Cut(done, size) == done by { WholeCut(done, size); }
    }
  }

  lemma WholeCut(bytes: seq<byte>, space: nat)
    requires |bytes| <= space
    ensures Cut(bytes, space) == bytes
  {
  }

  lemma FitsWhole(op: Op, space: nat)
    requires Fits(op, space)
    ensures Added(op, space) == Cut(BytesOf(op), space)
  {
  }

  // ---------------------------------------------------------------------------------------
  // Memory and the file object
  // ---------------------------------------------------------------------------------------

  class Heap {
    var live: set<array<byte>>

    /** `mem_malloc`: a new buffer, or nothing. */
    method Malloc(size: nat, granted: bool) returns (bytes: array?<byte>)
      modifies this
      ensures granted ==> bytes != null && fresh(bytes) && bytes.Length == size && live == old(live) + {bytes}
      ensures !granted ==> bytes == null && live == old(live)
    {
      if granted {
        bytes := new byte[size](_ => 0);
        live := live + {bytes};
      } else {
        bytes := null;
      }
    }

    /** `mem_free`: only what is in use, so nothing is freed twice. */
    method Free(bytes: array<byte>)
      requires bytes in live
      modifies this
      ensures live == old(live) - {bytes}
    {
      live := live - {bytes};
    }
  }

  class File {
    var pextension: array?<byte>
    var data: Data
    var index: nat
    var len: nat

    /** As `memset` leaves it. */
    ghost predicate Cleared()
      reads this
    {
      pextension == null && data == Null && index == 0 && len == 0
    }

    ghost predicate Bounded(bytes: array<byte>)
      reads this
    {
      data == Buffer(bytes) && index <= len == bytes.Length <= MAX_SIZE
    }

    /** A buffer is allocated and can be written. */
    ghost predicate Writable(bytes: array<byte>)
      reads this
    {
      pextension == bytes && Bounded(bytes)
    }

    /** The handler has claimed the raw buffer. */
    ghost predicate Claimed(bytes: array<byte>)
      reads this
    {
      pextension == null && Bounded(bytes)
    }

    constructor ()
      ensures Cleared()
    {
      pextension, data, index, len := null, Null, 0, 0;
    }

    /** `restfs_alloc_buffer`; `ok` is ERR_OK. */
    method AllocBuffer(heap: Heap, size: nat, granted: bool) returns (ok: bool)
      requires Cleared() && size <= MAX_SIZE
      modifies this, heap
      ensures ok == granted
      ensures ok ==> pextension != null && fresh(pextension) && Writable(pextension)
                     && len == size && index == 0 && heap.live == old(heap.live) + {pextension}
      ensures !ok ==> Cleared() && heap.live == old(heap.live)
    {
      var bytes := heap.Malloc(size, granted);
      pextension := bytes;
      if bytes != null {
        data := Buffer(bytes);
        len := size;
      }
      return bytes != null;
    }

    /** `restfs_write`. */
    method Write(bytes: seq<byte>) returns (written: nat)
      requires pextension != null && Writable(pextension) && |bytes| <= MAX_SIZE
      modifies this`index, pextension
      ensures Writable(pextension)
      ensures pextension[..index] == old(pextension[..index]) + Cut(bytes, old(len - index))
      ensures written == |Cut(bytes, old(len - index))|
    {
      written := if |bytes| < len - index then |bytes| else len - index;
      forall i | 0 <= i < written {
        pextension[index + i] := bytes[i];
      }
      index := index + written;
      assert Cut(bytes, old(len - index)) == bytes[..written];
    }

    /**
     * `restfs_printf` of a text without terminator. As much as fits is stored, and a
     * terminator; the index advances by the whole length in any case.
     */
    method Print(text: seq<byte>) returns (written: nat)
      requires pextension != null && Writable(pextension)
      modifies this`index, pextension
      ensures written == |text| && index == old(index) + |text|
      ensures Writable(pextension) <==> |text| <= old(len - index)
      ensures Writable(pextension)
          ==> (pextension[..index] == old(pextension[..index]) + text
               <==> text == [] || |text| < old(len - index) || text[|text| - 1] == 0)
    {
      ghost var before := pextension[..index];
      var space := len - index;
      if space > 0 {
        var stored := if |text| < space then |text| else space - 1;
        forall i | 0 <= i < stored {
          pextension[index + i] := text[i];
        }
        pextension[index + stored] := 0;
        assert pextension[..index] == before;
        assert pextension[index..index + stored] == text[..stored];
      }
      index := index + |text|;
      written := |text|;
      if |text| <= space {
        assert pextension[..index] == before + pextension[old(index)..index];
        if text != [] && |text| == space {
          assert pextension[..index][index - 1] == 0;
          assert (before + text)[index - 1] == text[|text| - 1];
          if text[|text| - 1] == 0 {
            assert text == text[..|text| - 1] + [0];
          }
        }
      }
    }

    /** `restfs_claim_raw_buffer`: from `at` on, the buffer is the caller's. */
    method ClaimRawBuffer() returns (bytes: array<byte>, at: nat)
      requires pextension != null && Writable(pextension)
      modifies this`pextension
      ensures bytes == old(pextension) && Claimed(bytes) && at == index
    {
      bytes, at := pextension, index;
      pextension := null;
    }

    /** `restfs_release_raw_buffer` after `count` bytes were filled in. */
    method ReleaseRawBuffer(count: nat)
      requires data.Buffer? && Claimed(data.bytes) && index + count <= len
      modifies this`index, this`pextension
      ensures pextension == data.bytes && Writable(data.bytes) && index == old(index) + count
    {
      index := index + count;
      pextension := data.bytes;
    }

    /** `restfs_write_const`. */
    method WriteConst(str: seq<byte>)
      requires Cleared()
      modifies this`data, this`index
      ensures pextension == null && data == Str(str) && index == |str|
    {
      data := Str(str);
      index := |str|;
    }

    /** One operation of a handler. */
    method Do(op: Op)
      requires pextension != null && Writable(pextension) && Fits(op, len - index)
      modifies this, pextension
      ensures pextension == old(pextension) && Writable(pextension) && len == old(len)
      ensures pextension[..index] == old(pextension[..index]) + Added(op, old(len - index))
    {
      match op {
        case Write(bytes) =>
          var _ := Write(bytes);
        case Print(text) =>
          var _ := Print(text);
        case Raw(filled) =>
          var bytes, at := ClaimRawBuffer();
          forall i | 0 <= i < |filled| {
            bytes[at + i] := filled[i];
          }
          ReleaseRawBuffer(|filled|);
          assert pextension[..index] == old(pextension[..index]) + filled;
      }
    }

    /** What a client receives. */
    ghost function Served(): seq<byte>
      requires match data case Null => len == 0 case Buffer(bytes) => len <= bytes.Length case Str(str) => len <= |str|
      reads this, if data.Buffer? then {data.bytes} else {}
    {
      match data
      case Null => []
      case Buffer(bytes) => bytes[..len]
      case Str(str) => str[..len]
    }

    ghost predicate Servable()
      reads this
    {
      match data case Null => len == 0 case Buffer(bytes) => len <= bytes.Length case Str(str) => len <= |str|
    }

    /** A handler that answers through a buffer. */
    method RunHandler(heap: Heap, size: nat, ops: seq<Op>, held: bool, granted: bool)
      requires Cleared() && size <= MAX_SIZE && Legal(size, 0, ops)
      modifies this, heap
      ensures !granted ==> Cleared() && heap.live == old(heap.live)
      ensures granted ==> data.Buffer? && fresh(data.bytes) && Bounded(data.bytes)
                          && pextension == (if held then null else data.bytes)
                          && heap.live == old(heap.live) + {data.bytes}
                          && data.bytes[..index] == Output(size, [], ops)
    {
      hide Legal, Output, Fits, Added;
      var ok := AllocBuffer(heap, size, granted);
      if !ok {
        return;
      }
      var i := 0;
      ghost var bytes: array<byte> := pextension;
      assert ops[0..] == ops && bytes[..index] == [];
      while i < |ops|
        invariant 0 <= i <= |ops|
        invariant pextension == bytes && fresh(bytes) && Writable(bytes) && len == size
        invariant heap.live == old(heap.live) + {bytes}
        invariant Legal(size, index, ops[i..])
        invariant Output(size, bytes[..index], ops[i..]) == Output(size, [], ops)
      {
        assert ops[i..][0] == ops[i] && ops[i..][1..] == ops[i + 1..];
        OutputStep(size, bytes[..index], ops[i..]);
        Do(ops[i]);
        i := i + 1;
      }
      OutputEnd(size, bytes[..index], ops[i..]);
      if held {
        var _, _ := ClaimRawBuffer();
      }
    }

    /** `fs_open_custom`: the first endpoint of that name answers. */
    method Open(heap: Heap, name: string, endpoints: seq<Endpoint>, granted: bool) returns (found: bool)
      requires forall e :: e in endpoints && e.handler.Respond?
                   ==> e.handler.size <= MAX_SIZE && Legal(e.handler.size, 0, e.handler.ops)
      modifies this, heap
      ensures found <==> exists i :: 0 <= i < |endpoints| && endpoints[i].uri == name
      ensures !found ==> heap.live == old(heap.live) && pextension == old(pextension) && data == old(data)
      ensures found ==> Servable() && Answered(heap, old(heap.live), First(endpoints, name).handler, granted)
    {
      var i := 0;
      while i < |endpoints|
        invariant 0 <= i <= |endpoints|
        invariant forall j :: 0 <= j < i ==> endpoints[j].uri != name
        invariant unchanged(this) && unchanged(heap)
      {
        if endpoints[i].uri == name {
          FirstIs(endpoints, name, i);
          pextension, data, index, len := null, Null, 0, 0;
          match endpoints[i].handler {
            case Constant(str) => WriteConst(str);
            case Respond(size, ops, held) => RunHandler(heap, size, ops, held, granted);
          }
          len := index;
          return true;
        }
        i := i + 1;
      }
      return false;
    }

    /** The state between opening and closing, for a handler that ran from a cleared file. */
    twostate predicate Answered(heap: Heap, live: set<array<byte>>, handler: Handler, granted: bool)
      requires Servable()
      requires handler.Respond? ==> Legal(handler.size, 0, handler.ops)
      reads this, heap, if data.Buffer? then {data.bytes} else {}
    {
      match handler
      case Constant(str) => pextension == null && Served() == str && heap.live == live
      case Respond(size, ops, held) =>
        if granted then
          && data.Buffer? && fresh(data.bytes) && Served() == Output(size, [], ops)
          && heap.live == live + {data.bytes} && pextension == (if held then null else data.bytes)
        else
          pextension == null && Served() == [] && heap.live == live
    }

    /** `fs_close_custom`. */
    method Close(heap: Heap)
      requires pextension != null ==> pextension in heap.live
      modifies this`pextension, heap
      ensures pextension == null
      ensures heap.live == if old(pextension) != null then old(heap.live) - {old(pextension)} else old(heap.live)
    {
      if pextension != null {
        heap.Free(pextension);
        pextension := null;
      }
    }
  }

  function First(endpoints: seq<Endpoint>, name: string): (e: Endpoint)
    requires exists i :: 0 <= i < |endpoints| && endpoints[i].uri == name
    ensures e in endpoints && e.uri == name
  {
    if endpoints[0].uri == name then endpoints[0] else First(endpoints[1..], name)
  }

  lemma {:induction false} FirstIs(endpoints: seq<Endpoint>, name: string, i: nat)
    requires i < |endpoints| && endpoints[i].uri == name
    requires forall j :: 0 <= j < i ==> endpoints[j].uri != name
    ensures First(endpoints, name) == endpoints[i]
    decreases i
  {
    if i > 0 {
      FirstIs(endpoints[1..], name, i - 1);
    }
  }

  /** A request from opening to closing, and closing once more. */
  method Request(heap: Heap, name: string, handler: Handler, granted: bool) returns (served: seq<byte>)
    requires handler.Respond? ==> handler.size <= MAX_SIZE && Legal(handler.size, 0, handler.ops)
    modifies heap
    ensures served == match handler
                      case Constant(str) => str
                      case Respond(size, ops, _) => if granted then Cut(AllBytes(ops), size) else []
    ensures heap.live == old(heap.live) <==> handler.Constant? || !handler.held || !granted
  {
    var file := new File();
    var found := file.Open(heap, name, [Endpoint(name, handler)], granted);
    assert [Endpoint(name, handler)][0].uri == name;
    assert found;
    served := match file.data case Null => [] case Buffer(bytes) => bytes[..file.len] case Str(str) => str[..file.len];
    if handler.Respond? && granted {
      OutputIsCutConcatenation(handler.size, [], handler.ops);
      assert [] + AllBytes(handler.ops) == AllBytes(handler.ops);
    }
    file.Close(heap);
    file.Close(heap);
  }
}
