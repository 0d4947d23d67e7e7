/**
 * The "flexible buffer" helpers and the overflow-checked allocation sizes of
 * the memory module.  A flexible buffer is a block, its capacity counted in
 * elements of a fixed byte size, and a length kept by the caller (or no length
 * at all, in which case every append writes at the start).  Growth doubles the
 * requested capacity; every size computation aborts on `size_t` overflow, which
 * the model reports as `aborted`.
 */
module FlexBuffer {
  import opened Base

  /**
   * The byte count that eamalloc, eacalloc and earealloc request: mul1 * mul2 + add,
   * or None where one of the two overflow checks aborts the program.
   */
  function AllocSize(mul1: nat, mul2: nat, add: nat): (r: Option<nat>)
    requires mul1 <= SIZE_MAX && mul2 <= SIZE_MAX && add <= SIZE_MAX
    ensures r.Some? <==> mul1 * mul2 + add <= SIZE_MAX
    ensures r.Some? ==> r.value == mul1 * mul2 + add
  {
    var product := mul1 * mul2;
    if product > SIZE_MAX then None
    else if product + add > SIZE_MAX then None
    else Some(product + add)
  }

  /** eamalloc: a fresh block of exactly mul1 * mul2 + add bytes, or null where the program aborts. */
  method AllocBytes(mul1: nat, mul2: nat, add: nat) returns (block: array?<byte>)
    requires mul1 <= SIZE_MAX && mul2 <= SIZE_MAX && add <= SIZE_MAX
    ensures block == null <==> mul1 * mul2 + add > SIZE_MAX
    ensures block != null ==> fresh(block) && block.Length == mul1 * mul2 + add
  {
    var size := AllocSize(mul1, mul2, add);
    if size.None? {
      return null;
    }
    block := new byte[size.value];
  }

  /** eacalloc: like eamalloc, and every byte of the block is zero. */
  method AllocZeroedBytes(mul1: nat, mul2: nat, add: nat) returns (block: array?<byte>)
    requires mul1 <= SIZE_MAX && mul2 <= SIZE_MAX && add <= SIZE_MAX
    ensures block == null <==> mul1 * mul2 + add > SIZE_MAX
    ensures block != null ==> fresh(block) && block.Length == mul1 * mul2 + add
    ensures block != null ==> forall i :: 0 <= i < block.Length ==> block[i] == 0
  {
    var size := AllocSize(mul1, mul2, add);
    if size.None? {
      return null;
    }
    block := new byte[size.value](_ => 0);
  }

  /** earealloc: a block of mul1 * mul2 + add bytes that keeps the old contents up to the shorter length. */
  method ReallocBytes(old_block: array<byte>, mul1: nat, mul2: nat, add: nat) returns (block: array?<byte>)
    requires mul1 <= SIZE_MAX && mul2 <= SIZE_MAX && add <= SIZE_MAX
    ensures block == null <==> mul1 * mul2 + add > SIZE_MAX
    ensures block != null ==> fresh(block) && block.Length == mul1 * mul2 + add
    ensures block != null ==> forall i :: 0 <= i < block.Length && i < old_block.Length ==> block[i] == old_block[i]
  {
    var size := AllocSize(mul1, mul2, add);
    if size.None? {
      return null;
    }
    block := new byte[size.value];
    forall i | 0 <= i < block.Length && i < old_block.Length {
      block[i] := old_block[i];
    }
  }

  /**
   * The capacity after making room for `extra` elements beyond `len`: unchanged
   * when they already fit, otherwise twice the requested size.
   */
  function GrownCapacity(len: nat, extra: nat, cap: nat): (r: nat)
    ensures r >= len + extra && r >= cap
    ensures len + extra <= cap ==> r == cap
    ensures len + extra > cap ==> r == 2 * (len + extra)
  {
    if len + extra > cap then 2 * (len + extra) else cap
  }

  /** Whether growing would abort: the requested size, its double or its byte count overflows `size_t`. */
  predicate GrowAborts(len: nat, extra: nat, cap: nat, eltSize: nat) {
    len + extra > SIZE_MAX
    || (len + extra > cap && (2 * (len + extra) > SIZE_MAX || 2 * (len + extra) * eltSize > SIZE_MAX))
  }

  lemma MulMonotone(a: nat, b: nat, c: nat)
    requires a <= b
    ensures a * c <= b * c
  {
  }

  /**
   * A flexible buffer: `data` is the block (capacity `cap` elements) and
   * `isNull` says whether the block pointer is NULL.  The length is not a
   * field: callers keep it, or pass None for an untracked buffer.
   */
  class Buffer<T(0)> {
    var data: array<T>
    var cap: nat
    var isNull: bool
    const eltSize: nat

    ghost predicate Valid()
      reads this
    {
      data.Length == cap && eltSize > 0 && cap * eltSize <= SIZE_MAX && (isNull ==> cap == 0)
    }

    /** A buffer just after flexBufferInit. */
    constructor (eltSize: nat)
      requires eltSize > 0
      ensures Valid() && isNull && cap == 0 && this.eltSize == eltSize
    {
      this.eltSize := eltSize;
      data := new T[0];
      cap := 0;
      isNull := true;
    }

    /** The length a caller keeps after flexBufferInit or flexBufferFree: zero when tracked. */
    static function ResetLength(len: Option<nat>): (r: Option<nat>)
      ensures r.Some? <==> len.Some?
      ensures r.Some? ==> r.value == 0
    {
      if len.Some? then Some(0) else None
    }

    /** flexBufferInit: buffer NULL, capacity 0, and a tracked length 0. */
    method Init(len: Option<nat>) returns (newLen: Option<nat>)
      requires eltSize > 0
      modifies this
      ensures Valid() && isNull && cap == 0
      ensures newLen == ResetLength(len)
    {
      data := new T[0];
      isNull := true;
      cap := 0;
      newLen := ResetLength(len);
    }

    /** flexBufferFree: releases the block and returns to the state flexBufferInit gives. */
    method Free(len: Option<nat>) returns (newLen: Option<nat>)
      requires Valid()
      modifies this
      ensures Valid() && isNull && cap == 0
      ensures newLen == ResetLength(len)
    {
      if !isNull {
        data := new T[0];
        isNull := true;
      }
      newLen := ResetLength(len);
      cap := 0;
    }

    /**
     * flexBufferGrow: make room for `extra` elements beyond `len`.  Nothing
     * changes when they already fit; otherwise the capacity becomes twice the
     * requested size and the block is reallocated, keeping its contents.
     */
    method Grow(len: nat, extra: nat) returns (aborted: bool)
      requires Valid()
      modifies this
      ensures aborted <==> GrowAborts(len, extra, old(cap), eltSize)
      ensures !aborted ==> Valid() && cap == GrownCapacity(len, extra, old(cap))
      ensures !aborted ==> data[..old(cap)] == old(data[..])
      ensures !aborted && len + extra <= old(cap) ==> data == old(data) && isNull == old(isNull)
      ensures !aborted && len + extra > old(cap) ==> fresh(data) && !isNull
      ensures aborted ==> unchanged(this)
    {
      if len + extra > SIZE_MAX {
        return true;
      }
      var newCap := len + extra;
      if newCap > cap {
        if newCap * 2 > SIZE_MAX || newCap * 2 * eltSize > SIZE_MAX {
          return true;
        }
        var block := new T[newCap * 2];
        forall i | 0 <= i < data.Length {
          block[i] := data[i];
        }
        data := block;
        cap := newCap * 2;
        isNull := false;
      }
      return false;
    }

    /**
     * flexBufferAppend: copy `src` to the tail of a tracked buffer (or the
     * start of an untracked one) and advance the length by |src|.  The caller
     * grows the buffer first; given that, neither size check can abort.
     */
    method Append(len: Option<nat>, src: seq<T>) returns (newLen: Option<nat>)
      requires Valid()
      requires (if len.Some? then len.value else 0) + |src| <= cap
      modifies data
      ensures newLen.Some? <==> len.Some?
      ensures len.Some? ==> newLen.value == len.value + |src|
      ensures var start := if len.Some? then len.value else 0;
        data[..start] == old(data[..start]) && data[start..start + |src|] == src
        && data[start + |src|..] == old(data[start + |src|..])
    {
      MulMonotone(|src|, cap, eltSize);
      var copyBytes := |src| * eltSize;
      assert copyBytes <= SIZE_MAX;
      var start := 0;
      newLen := None;
      if len.Some? {
        MulMonotone(len.value, cap, eltSize);
        assert len.value * eltSize <= SIZE_MAX;
        start := len.value;
        newLen := Some(len.value + |src|);
      }
      forall i | 0 <= i < |src| {
        data[start + i] := src[i];
      }
    }
  }

  /** The length from which an append or a formatted write starts. */
  function Start(len: Option<nat>): nat {
    if len.Some? then len.value else 0
  }

  /**
   * flexBufferGrowAppendStr: grow by strlen + 1 and append the string with its
   * terminating NUL.
   */
  method GrowAppendStr(b: Buffer<char>, len: Option<nat>, str: string) returns (newLen: Option<nat>, aborted: bool)
    requires b.Valid() && b.eltSize == 1
    requires Start(len) <= b.cap
    requires '\0' !in str
    modifies b, b.data
    ensures !aborted ==> b.Valid() && b.eltSize == 1 && Start(len) + |str| + 1 <= b.cap
    ensures !aborted ==> newLen.Some? == len.Some? && (len.Some? ==> newLen.value == len.value + |str| + 1)
    ensures !aborted ==> b.data[..Start(len)] == old(b.data[..Start(len)])
    ensures !aborted ==> b.data[Start(len)..Start(len) + |str| + 1] == str + ['\0']
    ensures aborted ==> GrowAborts(Start(len), |str| + 1, old(b.cap), 1)
  {
    var dataLen := |str| + 1;
    aborted := b.Grow(Start(len), dataLen);
    if aborted {
      return len, true;
    }
    newLen := b.Append(len, str + ['\0']);
  }

  /**
   * flexBufferPrintf.  `formatted` is what vsnprintf produces for the format
   * and arguments (None when it reports an encoding error, which is silently
   * ignored).  If the text and its NUL do not fit in the free space, the buffer
   * grows by exactly that much and the text is written again.
   */
  method Printf(b: Buffer<char>, len: Option<nat>, formatted: Option<string>) returns (newLen: Option<nat>, aborted: bool)
    requires b.Valid() && b.eltSize == 1
    requires Start(len) <= b.cap
    requires formatted.Some? ==> |formatted.value| <= INT_MAX
    modifies b, b.data
    ensures formatted.None? ==> !aborted && newLen == len && b.cap == old(b.cap)
    ensures formatted.Some? && !aborted ==>
      var text := formatted.value;
      b.Valid() && b.eltSize == 1 && Start(len) + |text| + 1 <= b.cap
      && (newLen.Some? <==> len.Some?) && (len.Some? ==> newLen.value == len.value + |text| + 1)
      && b.data[..Start(len)] == old(b.data[..Start(len)])
      && b.data[Start(len)..Start(len) + |text| + 1] == text + ['\0']
    ensures formatted.Some? ==> (aborted <==> GrowAborts(Start(len), |formatted.value| + 1, old(b.cap), 1))
    ensures b.data == old(b.data) || fresh(b.data)
  {
    var extra := TryPrintf(b, len, formatted);
    if extra == 0 {
      if formatted.Some? {
        newLen := if len.Some? then Some(len.value + |formatted.value| + 1) else None;
      } else {
        newLen := len;
      }
      return newLen, false;
    }
    aborted := b.Grow(Start(len), extra);
    if aborted {
      return len, true;
    }
    var again := TryPrintf(b, len, formatted);
    newLen := if len.Some? then Some(len.value + |formatted.value| + 1) else None;
  }

  /**
   * tryFlexBufferPrintf: writes the text and its NUL if they fit in the free
   * space and returns 0; otherwise returns the space they need (the text
   * written is truncated to the free space, so the tail of the block beyond
   * the length is not specified).
   */
  method TryPrintf(b: Buffer<char>, len: Option<nat>, formatted: Option<string>) returns (extra: nat)
    requires b.Valid() && Start(len) <= b.cap
    modifies b.data
    ensures formatted.None? ==> extra == 0
    ensures formatted.Some? ==>
      var text := formatted.value;
      (extra == 0 <==> Start(len) + |text| < b.cap)
      && (extra != 0 ==> extra == |text| + 1)
      && (extra == 0 ==> b.data[Start(len)..Start(len) + |text| + 1] == text + ['\0'])
    ensures b.data[..Start(len)] == old(b.data[..Start(len)])
  {
    var start := Start(len);
    var freeSpace := b.cap - start;
    if formatted.None? {
      return 0;
    }
    var text := formatted.value;
    if |text| < freeSpace {
      forall i | 0 <= i < |text| {
        b.data[start + i] := text[i];
      }
      b.data[start + |text|] := '\0';
      return 0;
    }
    // vsnprintf writes as much of the text as fits, then a NUL
    if freeSpace > 0 {
      forall i | 0 <= i < freeSpace - 1 {
        b.data[start + i] := text[i];
      }
      b.data[b.cap - 1] := '\0';
    }
    return |text| + 1;
  }
}
