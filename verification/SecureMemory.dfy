/** One byte memory with pointers as addresses, so that source and destination may be the same
    or overlap: huawei_secure_c/src/securecutil.h and huawei_secure_c/src/memmove_s.c. */
module SecureMemory {
  type byte = x: int | 0 <= x < 256

  datatype Pointer = NULL | Ptr(addr: nat)

  // securec.h:49-74 and securectype.h:375-382
  const EOK: nat := 0
  const EINVAL: nat := 22
  const EINVAL_AND_RESET: nat := 150     // 22 | 128
  const ERANGE: nat := 34
  const ERANGE_AND_RESET: nat := 162     // 34 | 128
  const EOVERLAP_AND_RESET: nat := 182   // 54 | 128
  const MAX_LEN: nat := 0x7fff_ffff      // SECUREC_STRING_MAX_LEN, SECUREC_MEM_MAX_LEN

  // ---------------------------------------------------------------- bounded strings

  /** The bytes from `p` may be read up to a NUL, or up to `n` of them. */
  predicate Readable(m: seq<byte>, p: nat, n: nat)
    decreases n
  {
    n == 0 || (p < |m| && (m[p] == 0 || Readable(m, p + 1, n - 1)))
  }

  /** strnlen */
  function MinLen(m: seq<byte>, p: nat, n: nat): (r: nat)
    requires Readable(m, p, n)
    ensures r <= n && (p <= |m| ==> p + r <= |m|)
    ensures forall k :: p <= k < p + r ==> k < |m| && m[k] != 0
    ensures r < n ==> p + r < |m| && m[p + r] == 0
    decreases n
  {
    if n == 0 || m[p] == 0 then 0 else 1 + MinLen(m, p + 1, n - 1)
  }

  /** The characters before the first NUL, at most `n`. */
  function Text(m: seq<byte>, p: nat, n: nat): seq<byte>
    requires Readable(m, p, n) && p <= |m|
  {
    m[p..p + MinLen(m, p, n)]
  }

  /** The length is the only one with no NUL before it and a NUL or the bound after it. */
  lemma {:induction false} LengthIs(m: seq<byte>, p: nat, n: nat, len: nat)
    requires len <= n && p + len <= |m| && (forall k :: p <= k < p + len ==> m[k] != 0)
    requires len < n ==> p + len < |m| && m[p + len] == 0
    ensures Readable(m, p, n) && MinLen(m, p, n) == len
    decreases n
  {
    if len > 0 {
      LengthIs(m, p + 1, n - 1, len - 1);
    }
  }

  /** A smaller bound asks for less. */
  lemma {:induction false} ReadableLess(m: seq<byte>, p: nat, n: nat, k: nat)
    requires Readable(m, p, n) && k <= n
    ensures Readable(m, p, k) && MinLen(m, p, k) == if MinLen(m, p, n) < k then MinLen(m, p, n) else k
    decreases n
  {
    if k > 0 && m[p] != 0 {
      ReadableLess(m, p + 1, n - 1, k - 1);
    }
  }

  /** SECUREC_CALC_STR_LEN: counts down from the bound. */
  method SecStrMinLen(mem: array<byte>, str: nat, maxLen: nat) returns (len: nat)
    requires Readable(mem[..], str, maxLen)
    ensures len == MinLen(mem[..], str, maxLen)
  {
    var strEnd, availableSize := str, maxLen;
    while availableSize > 0 && mem[strEnd] != 0
      invariant 0 <= availableSize <= maxLen && strEnd == str + (maxLen - availableSize)
      invariant Readable(mem[..], strEnd, availableSize)
      invariant strEnd - str + MinLen(mem[..], strEnd, availableSize) == MinLen(mem[..], str, maxLen)
    {
      availableSize := availableSize - 1;
      strEnd := strEnd + 1;
    }
    len := strEnd - str;
  }

  /** SECUREC_CALC_STR_LEN_OPT: the first nine bytes are looked at one by one. */
  method SecStrMinLenOpt(mem: array<byte>, str: nat, maxLen: nat) returns (len: nat)
    requires Readable(mem[..], str, maxLen)
    ensures len == MinLen(mem[..], str, maxLen)
  {
    if maxLen > 8 {
      var i := 0;
      while i < 8 && mem[str + i] != 0
        invariant 0 <= i <= 8 && Readable(mem[..], str + i, maxLen - i)
        invariant i + MinLen(mem[..], str + i, maxLen - i) == MinLen(mem[..], str, maxLen)
      {
        i := i + 1;
      }
      if mem[str + i] == 0 {
        return i;
      }
      var rest := SecStrMinLen(mem, str + 8, maxLen - 8);
      return 8 + rest;
    }
    len := SecStrMinLen(mem, str, maxLen);
  }

  // ---------------------------------------------------------------- overlap

  predicate MemoryNoOverlap(dest: nat, src: nat, count: nat) {
    (src < dest && src + count <= dest) || (dest < src && dest + count <= src)
  }

  predicate StringNoOverlap(dest: nat, src: nat, len: nat) {
    (src < dest && src + len < dest) || (dest < src && dest + len < src)
  }

  predicate CatStringIsOverlap(dest: nat, destLen: nat, src: nat, srcLen: nat) {
    (dest < src && dest + destLen + srcLen >= src) || (src < dest && src + srcLen >= dest)
  }

  predicate Within(x: nat, a: nat, len: nat) {
    a <= x < a + len
  }

  /** Two ranges have an address in common. */
  ghost predicate Meet(a: nat, aLen: nat, b: nat, bLen: nat) {
    exists x: nat :: Within(x, a, aLen) && Within(x, b, bLen)
  }

  lemma RangesMeet(a: nat, aLen: nat, b: nat, bLen: nat)
    ensures Meet(a, aLen, b, bLen) <==> aLen > 0 && bLen > 0 && a < b + bLen && b < a + aLen
  {
    if aLen > 0 && bLen > 0 && a < b + bLen && b < a + aLen {
      var x := if a < b then b else a;
      assert Within(x, a, aLen) && Within(x, b, bLen);
    }
  }

  /** The macros are true of exactly the ranges they are for: `count` bytes, a string with its
      terminator, and a string that is to be extended by another. */
  lemma OverlapMacros(dest: nat, destLen: nat, src: nat, len: nat)
    requires dest != src
    ensures len > 0 ==> (MemoryNoOverlap(dest, src, len) <==> !Meet(dest, len, src, len))
    ensures StringNoOverlap(dest, src, len) <==> !Meet(dest, len + 1, src, len + 1)
    ensures CatStringIsOverlap(dest, destLen, src, len) <==> Meet(dest, destLen + len + 1, src, len + 1)
  {
    RangesMeet(dest, len, src, len);
    RangesMeet(dest, len + 1, src, len + 1);
    RangesMeet(dest, destLen + len + 1, src, len + 1);
  }

  // ---------------------------------------------------------------- copying

  /** The memory with `bytes` put at `p`. */
  function Put(m: seq<byte>, p: nat, bytes: seq<byte>): (r: seq<byte>)
    requires p + |bytes| <= |m|
    ensures |r| == |m|
    ensures forall k :: 0 <= k < |m| ==> r[k] == if p <= k < p + |bytes| then bytes[k - p] else m[k]
  {
    m[..p] + bytes + m[p + |bytes|..]
  }

  /** memcpy: ascending, for ranges that are apart or the same. */
  method SecDoMemcpy(mem: array<byte>, dest: nat, src: nat, count: nat)
    requires dest + count <= mem.Length && src + count <= mem.Length
    requires dest == src || dest + count <= src || src + count <= dest
    modifies mem
    ensures mem[..] == Put(old(mem[..]), dest, old(mem[src..src + count]))
  {
    ghost var was := mem[..];
    var i := 0;
    while i < count
      invariant 0 <= i <= count
      invariant forall k :: dest <= k < dest + i ==> mem[k] == was[src..src + count][k - dest]
      invariant forall k :: 0 <= k < mem.Length && !(dest <= k < dest + i) ==> mem[k] == was[k]
    {
      mem[dest + i] := mem[src + i];
      i := i + 1;
    }
    assert mem[..] == Put(was, dest, was[src..src + count]);
  }

  method Memset(mem: array<byte>, dest: nat, count: nat)
    requires dest + count <= mem.Length
    modifies mem
    ensures mem[..] == Put(old(mem[..]), dest, seq(count, _ => 0))
  {
    var i := 0;
    while i < count
      invariant 0 <= i <= count
      invariant forall k :: 0 <= k < mem.Length ==> mem[k] == if dest <= k < dest + i then 0 else old(mem[k])
    {
      mem[dest + i] := 0;
      i := i + 1;
    }
  }

  /** Wherever the two ranges lie, the result is that of copying through a snapshot of the source. */
  method SecUtilMemmove(mem: array<byte>, dst: nat, src: nat, count: nat)
    requires dst + count <= mem.Length && src + count <= mem.Length
    modifies mem
    ensures mem[..] == Put(old(mem[..]), dst, old(mem[src..src + count]))
  {
    if dst <= src || dst >= src + count {
      CopyUpwards(mem, dst, src, count);
    } else {
      CopyDownwards(mem, dst, src, count);
    }
  }

  method CopyUpwards(mem: array<byte>, dst: nat, src: nat, count: nat)
    requires dst + count <= mem.Length && src + count <= mem.Length && (dst <= src || dst >= src + count)
    modifies mem
    ensures mem[..] == Put(old(mem[..]), dst, old(mem[src..src + count]))
  {
    ghost var was := mem[..];
    var pDest, pSrc, maxCount: int := dst, src, count;
    while maxCount > 0
      invariant 0 <= maxCount <= count && pDest == dst + (count - maxCount) && pSrc == src + (count - maxCount)
      invariant forall k :: dst <= k < pDest ==> mem[k] == was[src..src + count][k - dst]
      invariant forall k :: 0 <= k < mem.Length && !(dst <= k < pDest) ==> mem[k] == was[k]
    {
      mem[pDest] := mem[pSrc];
      pDest := pDest + 1;
      pSrc := pSrc + 1;
      maxCount := maxCount - 1;
    }
    assert mem[..] == Put(was, dst, was[src..src + count]);
  }

  method CopyDownwards(mem: array<byte>, dst: nat, src: nat, count: nat)
    requires dst + count <= mem.Length && src + count <= mem.Length && src < dst
    modifies mem
    ensures mem[..] == Put(old(mem[..]), dst, old(mem[src..src + count]))
  {
    ghost var was := mem[..];
    var pDest: int, pSrc: int, maxCount: int := dst + count - 1, src + count - 1, count;
    while maxCount > 0
      invariant 0 <= maxCount <= count && pDest == dst + maxCount - 1 && pSrc == src + maxCount - 1
      invariant forall k :: pDest < k < dst + count ==> mem[k] == was[src..src + count][k - dst]
      invariant forall k :: 0 <= k < mem.Length && !(pDest < k < dst + count) ==> mem[k] == was[k]
    {
      mem[pDest] := mem[pSrc];
      pDest := pDest - 1;
      pSrc := pSrc - 1;
      maxCount := maxCount - 1;
    }
    assert mem[..] == Put(was, dst, was[src..src + count]);
  }

  /** The arguments that memmove_s lets through. */
  predicate SizeOk(destMax: nat) {
    0 < destMax <= MAX_LEN
  }

  method memmove_s(mem: array<byte>, dest: Pointer, destMax: nat, src: Pointer, count: nat) returns (code: nat)
    requires SizeOk(destMax) && dest.Ptr? ==> dest.addr + destMax <= mem.Length
    requires SizeOk(destMax) && dest.Ptr? && src.Ptr? && count <= destMax ==> src.addr + count <= mem.Length
    modifies mem
    ensures code == ERANGE <==> destMax == 0 || destMax > MAX_LEN
    ensures code == EINVAL <==> SizeOk(destMax) && dest == NULL
    ensures code == EINVAL_AND_RESET <==> SizeOk(destMax) && dest != NULL && src == NULL
    ensures code == ERANGE_AND_RESET <==> SizeOk(destMax) && dest != NULL && src != NULL && count > destMax
    ensures code == EOK <==> SizeOk(destMax) && dest != NULL && src != NULL && count <= destMax
    ensures code == EOK ==> mem[..] == Put(old(mem[..]), dest.addr, old(mem[src.addr..src.addr + count]))
    ensures code == EINVAL_AND_RESET || code == ERANGE_AND_RESET ==>
      mem[..] == Put(old(mem[..]), dest.addr, seq(destMax, _ => 0))
    ensures code == EINVAL || code == ERANGE ==> mem[..] == old(mem[..])
  {
    if destMax == 0 || destMax > MAX_LEN {
      return ERANGE;
    }
    if dest == NULL || src == NULL {
      if dest != NULL {
        Memset(mem, dest.addr, destMax);
        return EINVAL_AND_RESET;
      }
      return EINVAL;
    }
    if count > destMax {
      Memset(mem, dest.addr, destMax);
      return ERANGE_AND_RESET;
    }
    if dest == src {
      return EOK;
    }
    if count > 0 {
      SecUtilMemmove(mem, dest.addr, src.addr, count);
    }
    return EOK;
  }
}
