/** `src/data.rs`: the generator's data-section allocator.

    A byte image as large as the stack is zero-filled and populated
    downwards from the stack pointer, so that every pointer handed out is
    already the final address: the image later becomes one active data
    segment at the final stack pointer.  Large blobs go to passive segments
    instead, numbered in the order they are added. */
module Data {
  import opened Results
  import opened Bytes
  import Wasm
  import WalrusOps

  datatype Data = Data(
    stackStart: nat,
    stackPtr: nat,
    strings: map<Bytes, nat>,
    bytes: Bytes,
    passive: seq<Bytes>)

  datatype DataError = OutOfStack

  /** `s` stored NUL-terminated at `p`. */
  predicate Holds(bytes: Bytes, p: nat, s: Bytes)
  {
    p + |s| + 1 <= |bytes| && bytes[p..p + |s|] == s && bytes[p + |s|] == 0
  }

  /** The image spans the stack, the pointer lies within it, everything
      below the pointer is still zero, and every interned string is stored
      at or above the pointer. */
  predicate Valid(d: Data)
  {
    d.stackPtr <= d.stackStart == |d.bytes|
    && (forall i :: 0 <= i < d.stackPtr ==> d.bytes[i] == 0)
    && (forall s :: s in d.strings ==> d.stackPtr <= d.strings[s] && Holds(d.bytes, d.strings[s], s))
  }

  /** What a later state keeps of an earlier one: the image keeps its
      size and everything at or above the old pointer, the pointer only
      goes down, interned strings keep their pointers and passive segments
      are only appended. */
  predicate Extends(d: Data, d': Data)
  {
    d'.stackStart == d.stackStart && d'.stackPtr <= d.stackPtr && |d'.bytes| == |d.bytes|
    && (forall i :: d.stackPtr <= i < |d.bytes| ==> d'.bytes[i] == d.bytes[i])
    && (forall s :: s in d.strings ==> s in d'.strings && d'.strings[s] == d.strings[s])
    && d.passive <= d'.passive
  }

  lemma ExtendsTrans(d1: Data, d2: Data, d3: Data)
    requires Extends(d1, d2) && Extends(d2, d3)
    ensures Extends(d1, d3)
  {
    assert d1.passive <= d3.passive by {
      assert d3.passive[..|d1.passive|] == d2.passive[..|d2.passive|][..|d1.passive|];
    }
  }

  /** `Data::new`. */
  function New(stackStart: nat): (r: Data)
    ensures Valid(r)
    ensures r.stackPtr == r.stackStart == |r.bytes| == stackStart
    ensures forall i :: 0 <= i < stackStart ==> r.bytes[i] == 0
    ensures r.strings == map[] && r.passive == []
  {
    Data(stackStart, stackStart, map[], Zeros(stackStart), [])
  }

  /** `Data::passive_bytes`: the new segment's index is the number added
      before it. */
  function PassiveBytes(d: Data, b: Bytes): (r: (Data, nat))
    ensures r.1 == |d.passive| && r.0.passive == d.passive + [b]
    ensures r.0 == d.(passive := d.passive + [b])
    ensures Extends(d, r.0)
  {
    (d.(passive := d.passive + [b]), |d.passive|)
  }

  /** Adding several blobs one after another. */
  function PassiveAll(d: Data, bs: seq<Bytes>): (Data, seq<nat>)
    decreases |bs|
  {
    if |bs| == 0 then (d, [])
    else
      var (d1, i) := PassiveBytes(d, bs[0]);
      var (d2, idxs) := PassiveAll(d1, bs[1..]);
      (d2, [i] + idxs)
  }

  /** Passive indices are handed out consecutively in call order. */
  lemma {:induction false} PassiveAllConsecutive(d: Data, bs: seq<Bytes>)
    ensures |PassiveAll(d, bs).1| == |bs|
    ensures forall i :: 0 <= i < |bs| ==> PassiveAll(d, bs).1[i] == |d.passive| + i
    ensures PassiveAll(d, bs).0.passive == d.passive + bs
    decreases |bs|
  {
    if |bs| > 0 {
      var d1 := PassiveBytes(d, bs[0]).0;
      PassiveAllConsecutive(d1, bs[1..]);
      assert d.passive + bs == d1.passive + bs[1..];
    }
  }

  /** `Data::stack_alloc` as written: when the lowered pointer is
      misaligned it is lowered further by `align - old_ptr % align`, the
      remainder of the OLD pointer. */
  function StackAllocAsWritten(d: Data, len: nat, align: nat): (r: Result<Data, DataError>)
    requires align > 0
    ensures r.Ok? <==> len + align <= d.stackPtr
    ensures r.Ok? ==> r.value.stackPtr + len <= d.stackPtr
    ensures r.Ok? ==> r.value == d.(stackPtr := r.value.stackPtr)
  {
    if len + align > d.stackPtr then Err(OutOfStack)
    else
      var p := d.stackPtr - len;
      if p % align != 0 then Ok(d.(stackPtr := p - (align - d.stackPtr % align)))
      else Ok(d.(stackPtr := p))
  }

  /** `Data::stack_alloc` with the padding the alignment needs: the region
      `[p, p + len)` ends at or below the old pointer and `p` is the highest
      multiple of `align` that allows it. */
  function StackAlloc(d: Data, len: nat, align: nat): (r: Result<Data, DataError>)
    requires align > 0
    ensures r.Ok? <==> len + align <= d.stackPtr
    ensures r.Ok? ==> r.value.stackPtr + len <= d.stackPtr
    ensures r.Ok? ==> r.value.stackPtr % align == 0
    ensures r.Ok? ==> d.stackPtr < r.value.stackPtr + len + align
    ensures r.Ok? ==> r.value == d.(stackPtr := r.value.stackPtr)
  {
    if len + align > d.stackPtr then Err(OutOfStack)
    else
      var p := d.stackPtr - len;
      AlignDown(p, align);
      Ok(d.(stackPtr := p - p % align))
  }

  lemma AlignDown(p: nat, a: nat)
    requires a > 0
    ensures p % a < a && (p - p % a) % a == 0
  {
    var k := p / a;
    assert p - p % a == a * k;
    MulMod(a, k);
  }

  lemma MulMod(a: nat, k: nat)
    requires a > 0
    ensures (a * k) % a == 0
  {
    var x := a * k;
    if x % a != 0 {
      var q := k - x / a;
      assert a * q == x % a;
      if q <= 0 {
        MulNonPos(a, q);
      } else {
        MulAtLeast(a, q);
      }
    }
  }

  lemma MulNonPos(a: nat, q: int)
    requires q <= 0
    ensures a * q <= 0
  {
  }

  lemma MulAtLeast(a: nat, q: int)
    requires q >= 1
    ensures a * q >= a
  {
    assert a * q == a + a * (q - 1);
  }

  /** Writing `w` at the new pointer keeps the allocator valid. */
  lemma StoreValid(d: Data, p: nat, w: Bytes)
    requires Valid(d) && p + |w| <= d.stackPtr
    ensures Valid(d.(stackPtr := p, bytes := Splice(d.bytes, p, w)))
  {
    var b' := Splice(d.bytes, p, w);
    forall s | s in d.strings ensures Holds(b', d.strings[s], s) {
      var q := d.strings[s];
      assert b'[q..q + |s|] == d.bytes[q..q + |s|];
    }
  }

  /** `Data::stack_bytes`: the bytes go immediately below the old pointer
      and the new pointer is returned. */
  function StackBytes(d: Data, b: Bytes): (r: Result<(Data, nat), DataError>)
    requires Valid(d)
    ensures r.Ok? <==> |b| + 1 <= d.stackPtr
    ensures r.Ok? ==> r.value.1 == r.value.0.stackPtr == d.stackPtr - |b|
    ensures r.Ok? ==> Valid(r.value.0) && |r.value.0.bytes| == |d.bytes|
    ensures r.Ok? ==> r.value.0.bytes[r.value.1..d.stackPtr] == b
    ensures r.Ok? ==> forall i :: 0 <= i < |d.bytes| && !(r.value.1 <= i < d.stackPtr) ==>
                        r.value.0.bytes[i] == d.bytes[i]
    ensures r.Ok? ==> r.value.0.strings == d.strings && r.value.0.passive == d.passive
    ensures r.Ok? ==> Extends(d, r.value.0)
  {
    match StackAlloc(d, |b|, 1)
    case Err(e) => Err(e)
    case Ok(a) =>
      StoreValid(d, a.stackPtr, b);
      Ok((a.(bytes := Splice(a.bytes, a.stackPtr, b)), a.stackPtr))
  }

  /** `WasmEncode for u32`. */
  const U32_ALIGN: nat := 4
  const U32_SIZE: nat := 4

  /** The items laid out one after another, as the encoding loop of
      `write_slice` advances its cursor. */
  function EncodeWords(ws: seq<u32>): (r: Bytes)
    ensures |r| == U32_SIZE * |ws|
    decreases |ws|
  {
    if |ws| == 0 then [] else EncodeWords(ws[..|ws| - 1]) + LE32(ws[|ws| - 1])
  }

  /** Item `i` occupies bytes `[4i, 4i + 4)`. */
  lemma {:induction false} EncodeWordsAt(ws: seq<u32>, i: nat)
    requires i < |ws|
    ensures EncodeWords(ws)[U32_SIZE * i..U32_SIZE * i + U32_SIZE] == LE32(ws[i])
    decreases |ws|
  {
    var n := |ws|;
    var front := EncodeWords(ws[..n - 1]);
    assert EncodeWords(ws) == front + LE32(ws[n - 1]);
    if i == n - 1 {
      assert EncodeWords(ws)[4 * i..4 * i + 4] == LE32(ws[n - 1]);
    } else {
      EncodeWordsAt(ws[..n - 1], i);
      assert EncodeWords(ws)[4 * i..4 * i + 4] == front[4 * i..4 * i + 4];
    }
  }

  /** `Data::write_slice::<u32>`. */
  function WriteSlice(d: Data, ws: seq<u32>): (r: Result<(Data, nat), DataError>)
    requires Valid(d)
    ensures r.Ok? <==> U32_SIZE * |ws| + U32_ALIGN <= d.stackPtr
    ensures r.Ok? ==> Valid(r.value.0) && r.value.1 == r.value.0.stackPtr
    ensures r.Ok? ==> r.value.1 % U32_ALIGN == 0 && r.value.1 + U32_SIZE * |ws| <= d.stackPtr
    ensures r.Ok? ==> r.value.0.strings == d.strings && r.value.0.passive == d.passive
    ensures r.Ok? ==> Extends(d, r.value.0)
  {
    match StackAlloc(d, U32_SIZE * |ws|, U32_ALIGN)
    case Err(e) => Err(e)
    case Ok(a) =>
      StoreValid(d, a.stackPtr, EncodeWords(ws));
      Ok((a.(bytes := Splice(a.bytes, a.stackPtr, EncodeWords(ws))), a.stackPtr))
  }

  /** Each item reads back little-endian from the returned pointer plus
      four times its position. */
  lemma WriteSliceReads(d: Data, ws: seq<u32>, i: nat)
    requires Valid(d) && WriteSlice(d, ws).Ok? && i < |ws|
    ensures var (d', p) := WriteSlice(d, ws).value;
      p + U32_SIZE * i + 4 <= |d'.bytes| && ReadLE32(d'.bytes, p + U32_SIZE * i) == ws[i]
  {
    var (d', p) := WriteSlice(d, ws).value;
    var e := EncodeWords(ws);
    EncodeWordsAt(ws, i);
    assert d'.bytes[p..p + |e|] == e;
    assert d'.bytes[p + 4 * i..p + 4 * i + 4] == e[4 * i..4 * i + 4];
    ReadLE32Window(d'.bytes, p + 4 * i, ws[i]);
  }

  /** `Data::string`: interned, so a repeated string gets its old pointer
      without allocating; a new one is stored NUL-terminated just below the
      old pointer. */
  function String(d: Data, s: Bytes): (r: Result<(Data, nat), DataError>)
    requires Valid(d)
    ensures s in d.strings ==> r == Ok((d, d.strings[s]))
    ensures s !in d.strings ==> (r.Ok? <==> |s| + 2 <= d.stackPtr)
    ensures s !in d.strings && r.Ok? ==> r.value.1 == d.stackPtr - |s| - 1
    ensures r.Ok? ==> Valid(r.value.0) && Holds(r.value.0.bytes, r.value.1, s)
    ensures r.Ok? ==> r.value.0.strings == d.strings[s := r.value.1]
    ensures r.Ok? ==> Extends(d, r.value.0)
  {
    if s in d.strings then Ok((d, d.strings[s]))
    else
      match StackAlloc(d, |s| + 1, 1)
      case Err(e) => Err(e)
      case Ok(a) =>
        var p := a.stackPtr;
        StoreString(d, s, a);
        Ok((a.(bytes := Splice(a.bytes, p, s + [0]), strings := a.strings[s := p]), p))
  }

  /** Storing a new string NUL-terminated at the freshly lowered pointer
      keeps the image valid, holds the string there, and keeps everything
      of the old state. */
  lemma StoreString(d: Data, s: Bytes, a: Data)
    requires Valid(d) && s !in d.strings && |s| + 1 <= d.stackPtr
    requires a == d.(stackPtr := d.stackPtr - |s| - 1)
    ensures var p := a.stackPtr; var d' := a.(bytes := Splice(a.bytes, p, s + [0]), strings := a.strings[s := p]);
      Valid(d') && Holds(d'.bytes, p, s) && d'.strings == d.strings[s := p] && Extends(d, d')
  {
    var p := a.stackPtr;
    var b := Splice(a.bytes, p, s + [0]);
    StoreValid(d, p, s + [0]);
    assert b[p..p + |s|] == (s + [0])[..|s|];
    assert b[p + |s|] == (s + [0])[|s|];
  }

  /** Interning is idempotent. */
  lemma StringIdempotent(d: Data, s: Bytes)
    requires Valid(d) && String(d, s).Ok?
    ensures var (d', p) := String(d, s).value; String(d', s) == Ok((d', p))
  {
  }

  /** The stack-embedding part of `Data::finish`: the pointer is lowered
      so that the used stack is a multiple of 8; `None` where the lowering
      would pass address 0. */
  function Pad8(d: Data): (r: Option<nat>)
    requires d.stackPtr <= d.stackStart
    ensures r.Some? ==> r.value <= d.stackPtr < r.value + 8 && (d.stackStart - r.value) % 8 == 0
    ensures r.None? <==> d.stackPtr < (8 - (d.stackStart - d.stackPtr) % 8) % 8
  {
    var rem := (d.stackStart - d.stackPtr) % 8;
    if rem == 0 then Some(d.stackPtr)
    else if d.stackPtr < 8 - rem then None
    else Some(d.stackPtr - (8 - rem))
  }

  /** `Data::finish` for the stack: pad, lower the module's stack pointer
      by the used size (cast to `i32`), and add the used part of the image
      as an active segment at the final pointer of `memory`.  A failing
      `bump_stack_global` is the error; an underflowing pad traps. */
  function FinishStack(d: Data, m: Wasm.Module, memory: nat): (r: Ret<Wasm.Module, Wasm.Error>)
    requires Valid(d)
    ensures Pad8(d).None? <==> r.Trap?
    ensures r.Done? ==> var p := Pad8(d).value;
      |r.value.data| == |m.data| + 1 && r.value.data[..|m.data|] == m.data
      && r.value.data[|m.data|] == Wasm.ActiveSegment(memory, p, d.bytes[p..d.stackStart])
      && r.value.funcs == m.funcs && r.value.imports == m.imports && r.value.exports == m.exports
  {
    match Pad8(d)
    case None => Trap
    case Some(p) =>
      match WalrusOps.BumpStackGlobal(m, WalrusOps.WrapI32(d.stackStart - p))
      case Err(e) => Fail(e)
      case Ok((m', _)) =>
        Done(m'.(data := m'.data + [Wasm.ActiveSegment(memory, p, d.bytes[p..d.stackStart])]))
  }

  /** The pointers the allocator handed out are right in the final module:
      every interned string sits NUL-terminated in the new segment at its
      pointer minus the segment's address, and the module's stack pointer
      went down by the whole segment. */
  lemma FinishStackStrings(d: Data, m: Wasm.Module, memory: nat, s: Bytes)
    requires Valid(d) && s in d.strings && FinishStack(d, m, memory).Done?
    ensures var seg := FinishStack(d, m, memory).value.data[|m.data|];
      seg.ActiveSegment? && seg.addr <= d.strings[s]
      && Holds(seg.value, d.strings[s] - seg.addr, s)
  {
    var p := Pad8(d).value;
    var seg := d.bytes[p..d.stackStart];
    var q := d.strings[s];
    assert seg[q - p..q - p + |s|] == d.bytes[q..q + |s|];
    assert seg[q - p + |s|] == d.bytes[q + |s|];
  }

  /** A stack that fits in an `i32` is lowered by exactly its used size. */
  lemma FinishStackBumps(d: Data, m: Wasm.Module, memory: nat)
    requires Valid(d) && FinishStack(d, m, memory).Done? && d.stackStart < 0x8000_0000
    ensures var p := Pad8(d).value;
      var g := WalrusOps.FirstNamed(m.globals, WalrusOps.STACK_POINTER, 0).value;
      m.globals[g].kind.LocalI32?
      && FinishStack(d, m, memory).value.globals[g].kind
         == Wasm.LocalI32(m.globals[g].kind.value - (d.stackStart - p))
  {
    var p := Pad8(d).value;
    WalrusOps.BumpStackGlobalSpec(m, d.stackStart - p);
  }

  /** As written, a word-aligned request after a 3-byte string gives a
      misaligned pointer: `new(12)`, `stack_bytes` of 3 bytes (pointer 9),
      then a 4-byte, 4-aligned allocation lands at 2. */
  lemma StackAllocMisaligns()
    ensures var d := StackBytes(New(12), [1, 2, 3]).value.0;
      d.stackPtr == 9 && StackAllocAsWritten(d, 4, 4) == Ok(d.(stackPtr := 2))
      && 2 % U32_ALIGN != 0
      && StackAlloc(d, 4, 4) == Ok(d.(stackPtr := 4))
  {
  }
}
