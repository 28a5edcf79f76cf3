/** Concatenation and copying on one memory: huawei_secure_c/src/strcat_s.c, strncat_s.c,
    strcpy_s.c and strncpy_s.c. */
module SecureStrings {
  import opened SecureMemory

  /** A destination that may be written. */
  ghost predicate Usable(m: seq<byte>, dest: Pointer, destMax: nat) {
    SizeOk(destMax) && dest.Ptr? ==> dest.addr + destMax <= |m|
  }

  /** All arguments are there and in range. */
  predicate Checked(dest: Pointer, destMax: nat, src: Pointer) {
    SizeOk(destMax) && dest.Ptr? && src.Ptr?
  }

  predicate Resets(code: nat) {
    code == EINVAL_AND_RESET || code == ERANGE_AND_RESET || code == EOVERLAP_AND_RESET
  }

  /** The codes for arguments that are not even looked at. */
  ghost predicate Refused(m: seq<byte>, m': seq<byte>, dest: Pointer, destMax: nat, src: Pointer, code: nat) {
    && (code == ERANGE <==> destMax == 0 || destMax > MAX_LEN)
    && (code == EINVAL <==> SizeOk(destMax) && dest == NULL)
    && (SizeOk(destMax) && dest != NULL && src == NULL ==> code == EINVAL_AND_RESET)
    && (code == ERANGE || code == EINVAL ==> m' == m)
    && (Resets(code) ==> dest.Ptr? && dest.addr < |m| && m' == m[dest.addr := 0])
  }

  // ---------------------------------------------------------------- strcat_s, strncat_s

  /** dest holds `dl` characters, `sl` are to be appended: the code, and the memory after. */
  ghost predicate CatResult(m: seq<byte>, m': seq<byte>, d: nat, dl: nat, destMax: nat, s: nat, sl: nat, code: nat)
    requires dl <= destMax && 0 < destMax && d + destMax <= |m| && s + sl <= |m|
  {
    var clash := Meet(d, dl + sl + 1, s, sl + 1);
    && (code == EOK <==> dl + sl < destMax && !clash)
    && (code == EOVERLAP_AND_RESET <==> d != s && clash && (dl < destMax || s < d + dl))
    && (code == ERANGE_AND_RESET <==> dl < destMax && (d == s || (!clash && dl + sl >= destMax)))
    && (code == EINVAL_AND_RESET <==> dl == destMax && (d == s || !clash || d + dl <= s))
    && (code == EOK ==> m' == Put(m, d + dl, m[s..s + sl] + [0]))
    && (code != EOK ==> m' == m[d := 0])
  }

  /** The errors of concatenation by the tests of the code. */
  lemma CatFails(m: seq<byte>, d: nat, dl: nat, destMax: nat, s: nat, sl: nat)
    requires dl <= destMax && 0 < destMax && d + destMax <= |m| && s + sl <= |m|
    requires CatStringIsOverlap(d, dl, s, sl) || sl + dl >= destMax || d == s
    ensures CatResult(m, m[d := 0], d, dl, destMax, s, sl,
      if CatStringIsOverlap(d, dl, s, sl)
      then (if d + dl <= s && dl == destMax then EINVAL_AND_RESET else EOVERLAP_AND_RESET)
      else if dl == destMax then EINVAL_AND_RESET else ERANGE_AND_RESET)
  {
    RangesMeet(d, dl + sl + 1, s, sl + 1);
  }

  lemma CatSucceeds(m: seq<byte>, d: nat, dl: nat, destMax: nat, s: nat, sl: nat)
    requires dl <= destMax && 0 < destMax && d + destMax <= |m| && s + sl <= |m|
    requires !(CatStringIsOverlap(d, dl, s, sl) || sl + dl >= destMax || d == s)
    ensures s + sl + 1 <= d + dl || d + dl + sl + 1 <= s
    ensures CatResult(m, Put(m, d + dl, m[s..s + sl] + [0]), d, dl, destMax, s, sl, EOK)
  {
    RangesMeet(d, dl + sl + 1, s, sl + 1);
  }

  /** What may be read of the source depends on the room behind the destination's text. */
  ghost predicate CanCat(m: seq<byte>, d: nat, destMax: nat, s: nat) {
    d + destMax <= |m| && Readable(m, d, destMax) && s <= |m| && Readable(m, s, destMax - MinLen(m, d, destMax))
  }

  method SecDoStrcat(mem: array<byte>, d: nat, destMax: nat, s: nat) returns (code: nat)
    requires 0 < destMax && CanCat(mem[..], d, destMax, s)
    modifies mem
    ensures var dl := old(MinLen(mem[..], d, destMax));
      CatResult(old(mem[..]), mem[..], d, dl, destMax, s, old(MinLen(mem[..], s, destMax - dl)), code)
  {
    hide CatResult, MinLen, Readable, Put;
    var destLen := SecStrMinLen(mem, d, destMax);
    var srcLen := SecStrMinLenOpt(mem, s, destMax - destLen);
    ghost var was := mem[..];
    if CatStringIsOverlap(d, destLen, s, srcLen) || srcLen + destLen >= destMax || d == s {
      CatFails(was, d, destLen, destMax, s, srcLen);
    } else {
      CatSucceeds(was, d, destLen, destMax, s, srcLen);
    }
    if CatStringIsOverlap(d, destLen, s, srcLen) {
      mem[d] := 0;
      if d + destLen <= s && destLen == destMax {
        return EINVAL_AND_RESET;
      }
      return EOVERLAP_AND_RESET;
    }
    if srcLen + destLen >= destMax || d == s {
      mem[d] := 0;
      if destLen == destMax {
        return EINVAL_AND_RESET;
      }
      return ERANGE_AND_RESET;
    }
    WithNul(was, s, srcLen);
    SecDoMemcpy(mem, d + destLen, s, srcLen + 1);
    return EOK;
  }

  /** Characters without their terminator, and then a terminator. */
  method CopyCharacters(mem: array<byte>, dest: nat, src: nat, len: nat)
    requires dest + len < mem.Length && src + len <= mem.Length
    requires dest == src || dest + len <= src || src + len <= dest
    modifies mem
    ensures mem[..] == Put(old(mem[..]), dest, old(mem[..])[src..src + len] + [0])
  {
    hide Put;
    ghost var was := mem[..];
    assert mem[src..src + len] == was[src..src + len];
    SecDoMemcpy(mem, dest, src, len);
    mem[dest + len] := 0;
    PutTerminated(was, dest, was[src..src + len]);
  }

  lemma PutTerminated(m: seq<byte>, p: nat, text: seq<byte>)
    requires p + |text| < |m|
    ensures Put(m, p, text)[p + |text| := 0] == Put(m, p, text + [0])
  {
  }

  predicate NoNul(text: seq<byte>) {
    forall k :: 0 <= k < |text| ==> text[k] != 0
  }

  lemma EmptyHasNoNul(text: seq<byte>)
    requires text == []
    ensures NoNul(text)
  {
  }

  /** A text is the part of the memory up to `e`. */
  lemma TextIs(m: seq<byte>, p: nat, n: nat) returns (e: nat)
    requires Readable(m, p, n) && p <= |m|
    ensures e == p + MinLen(m, p, n) <= |m|
    ensures Text(m, p, n) == m[p..e] && |Text(m, p, n)| == e - p && NoNul(Text(m, p, n))
  {
    e := p + MinLen(m, p, n);
  }

  /** Characters and a terminator put at `p` behind the text `head` make one text. */
  lemma Joined(m: seq<byte>, r: seq<byte>, d: nat, p: nat, head: seq<byte>, text: seq<byte>, n: nat)
    requires d <= p && p + |text| < |m| && p - d + |text| < n && m[d..p] == head
    requires r == Put(m, p, text + [0]) && NoNul(head) && NoNul(text)
    ensures Readable(r, d, n) && Text(r, d, n) == head + text
  {
    hide MinLen, Readable;
    var e := p + |text|;
    assert r[d..e] == head + text;
    forall k | d <= k < e ensures r[k] != 0 {
      assert r[k] == (head + text)[k - d];
    }
    LengthIs(r, d, n, e - d);
  }

  /** A text is the same in a memory that agrees with it and its terminator. */
  lemma SameText(m: seq<byte>, r: seq<byte>, s: nat, n: nat)
    requires s <= |m| == |r| && Readable(m, s, n)
    requires forall k :: s <= k <= s + MinLen(m, s, n) && k < |m| ==> r[k] == m[k]
    ensures Readable(r, s, n) && Text(r, s, n) == Text(m, s, n)
  {
    hide MinLen, Readable;
    var e := s + MinLen(m, s, n);
    LengthIs(r, s, n, e - s);
    assert r[s..e] == m[s..e];
  }

  /** A text that ends at `e` is not changed by writing outside it. */
  lemma TextKept(m: seq<byte>, r: seq<byte>, p: nat, bytes: seq<byte>, s: nat, n: nat, e: nat)
    requires p + |bytes| <= |m| && s <= |m| && Readable(m, s, n) && e == s + MinLen(m, s, n) && r == Put(m, p, bytes)
    requires e < p || p + |bytes| <= s
    ensures Readable(r, s, n) && Text(r, s, n) == Text(m, s, n)
  {
    hide MinLen, Readable, Text;
    SameText(m, r, s, n);
  }

  lemma CatIsPut(m: seq<byte>, m': seq<byte>, d: nat, p: nat, destMax: nat, s: nat, e: nat, text: seq<byte>)
    requires d <= p <= d + destMax <= |m| && 0 < destMax && s <= e <= |m| && m[s..e] == text
    requires CatResult(m, m', d, p - d, destMax, s, e - s, EOK)
    ensures p + |text| < d + destMax && m' == Put(m, p, text + [0])
    ensures e < p || p + |text| < s
    ensures forall k :: 0 <= k < |m| && !(d <= k < d + destMax) ==> m'[k] == m[k]
  {
    RangesMeet(d, p - d + (e - s) + 1, s, e - s + 1);
  }

  /** After EOK the destination holds both texts and a terminator, within destMax; the source and
      everything else is as it was. */
  lemma Concatenated(m: seq<byte>, m': seq<byte>, d: nat, destMax: nat, s: nat, n: nat)
    requires SizeOk(destMax) && CanCatN(m, d, destMax, s, n)
    requires CatResult(m, m', d, MinLen(m, d, destMax), destMax, s, MinLen(m, s, n), EOK)
    ensures |m'| == |m| && Readable(m', d, destMax)
    ensures Text(m', d, destMax) == Text(m, d, destMax) + Text(m, s, n) && |Text(m', d, destMax)| < destMax
    ensures Readable(m', s, n) && Text(m', s, n) == Text(m, s, n)
    ensures forall k :: 0 <= k < |m| && !(d <= k < d + destMax) ==> m'[k] == m[k]
  {
    hide MinLen, Readable, Put, CatResult, Text, NoNul;
    var p := TextIs(m, d, destMax);
    var e := TextIs(m, s, n);
    var head, text := Text(m, d, destMax), Text(m, s, n);
    CatIsPut(m, m', d, p, destMax, s, e, text);
    Joined(m, m', d, p, head, text, destMax);
    TextKept(m, m', p, text + [0], s, n, e);
  }

  ghost predicate CanCatN(m: seq<byte>, d: nat, destMax: nat, s: nat, n: nat) {
    d + destMax <= |m| && Readable(m, d, destMax) && s <= |m| && Readable(m, s, n)
  }

  lemma CatIsRefused(m: seq<byte>, m': seq<byte>, dest: Pointer, dl: nat, destMax: nat, src: Pointer, sl: nat,
                     code: nat)
    requires Checked(dest, destMax, src) && dl <= destMax && dest.addr + destMax <= |m| && src.addr + sl <= |m|
    requires CatResult(m, m', dest.addr, dl, destMax, src.addr, sl, code)
    ensures Refused(m, m', dest, destMax, src, code)
  {
    RangesMeet(dest.addr, dl + sl + 1, src.addr, sl + 1);
  }

  method strcat_s(mem: array<byte>, dest: Pointer, destMax: nat, src: Pointer) returns (code: nat)
    requires Usable(mem[..], dest, destMax)
    requires Checked(dest, destMax, src) ==> CanCat(mem[..], dest.addr, destMax, src.addr)
    modifies mem
    ensures Refused(old(mem[..]), mem[..], dest, destMax, src, code)
    ensures Checked(dest, destMax, src) ==>
      var dl := old(MinLen(mem[..], dest.addr, destMax));
      CatResult(old(mem[..]), mem[..], dest.addr, dl, destMax, src.addr,
        old(MinLen(mem[..], src.addr, destMax - dl)), code)
  {
    hide CatResult, MinLen, Readable, Put;
    ghost var was := mem[..];
    if destMax == 0 || destMax > MAX_LEN {
      return ERANGE;
    }
    if dest == NULL || src == NULL {
      if dest != NULL {
        mem[dest.addr] := 0;
        return EINVAL_AND_RESET;
      }
      return EINVAL;
    }
    ghost var dl := MinLen(was, dest.addr, destMax);
    code := SecDoStrcat(mem, dest.addr, destMax, src.addr);
    CatIsRefused(was, mem[..], dest, dl, destMax, src, MinLen(was, src.addr, destMax - dl), code);
  }

  method SecDoStrncat(mem: array<byte>, d: nat, destMax: nat, s: nat, count: nat) returns (code: nat)
    requires 0 < destMax && CanCatN(mem[..], d, destMax, s, count)
    modifies mem
    ensures CatResult(old(mem[..]), mem[..], d, old(MinLen(mem[..], d, destMax)), destMax, s,
      old(MinLen(mem[..], s, count)), code)
  {
    hide CatResult, MinLen, Readable, Put;
    var destLen := SecStrMinLen(mem, d, destMax);
    var srcLen := SecStrMinLen(mem, s, count);
    ghost var was := mem[..];
    if CatStringIsOverlap(d, destLen, s, srcLen) || srcLen + destLen >= destMax || d == s {
      CatFails(was, d, destLen, destMax, s, srcLen);
    } else {
      CatSucceeds(was, d, destLen, destMax, s, srcLen);
    }
    if CatStringIsOverlap(d, destLen, s, srcLen) {
      mem[d] := 0;
      if d + destLen <= s && destLen == destMax {
        return EINVAL_AND_RESET;
      }
      return EOVERLAP_AND_RESET;
    }
    if srcLen + destLen >= destMax || d == s {
      mem[d] := 0;
      if destLen == destMax {
        return EINVAL_AND_RESET;
      }
      return ERANGE_AND_RESET;
    }
    CopyCharacters(mem, d + destLen, s, srcLen);
    return EOK;
  }

  method strncat_s(mem: array<byte>, dest: Pointer, destMax: nat, src: Pointer, count: nat) returns (code: nat)
    requires Usable(mem[..], dest, destMax)
    requires Checked(dest, destMax, src) && count <= MAX_LEN ==> CanCatN(mem[..], dest.addr, destMax, src.addr, count)
    modifies mem
    ensures Refused(old(mem[..]), mem[..], dest, destMax, src, code)
    ensures Checked(dest, destMax, src) && count > MAX_LEN ==> code == ERANGE_AND_RESET
    ensures Checked(dest, destMax, src) && count <= MAX_LEN ==>
      CatResult(old(mem[..]), mem[..], dest.addr, old(MinLen(mem[..], dest.addr, destMax)), destMax,
                src.addr, old(MinLen(mem[..], src.addr, count)), code)
  {
    hide CatResult, MinLen, Readable, Put;
    ghost var was := mem[..];
    if destMax == 0 || destMax > MAX_LEN {
      return ERANGE;
    }
    if dest == NULL || src == NULL {
      if dest != NULL {
        mem[dest.addr] := 0;
        return EINVAL_AND_RESET;
      }
      return EINVAL;
    }
    if count > MAX_LEN {
      mem[dest.addr] := 0;
      return ERANGE_AND_RESET;
    }
    code := SecDoStrncat(mem, dest.addr, destMax, src.addr, count);
    CatIsRefused(was, mem[..], dest, MinLen(was, dest.addr, destMax), destMax, src, MinLen(was, src.addr, count), code);
  }

  // ---------------------------------------------------------------- strncpy_s, strcpy_s

  /** `len` characters are to be copied: the code, and the memory after. */
  ghost predicate CopyResult(m: seq<byte>, m': seq<byte>, d: nat, destMax: nat, s: nat, len: nat, code: nat)
    requires 0 < destMax && d + destMax <= |m| && s + len <= |m|
  {
    var clash := d != s && Meet(d, len + 1, s, len + 1);
    && (code == EOK <==> len < destMax && !clash)
    && (code == EOVERLAP_AND_RESET <==> len < destMax && clash)
    && (code == ERANGE_AND_RESET <==> len >= destMax)
    && (code == EOK ==> m' == Put(m, d, m[s..s + len] + [0]))
    && (code != EOK ==> code != EINVAL_AND_RESET && m' == m[d := 0])
  }

  lemma CopyIsPut(m: seq<byte>, m': seq<byte>, d: nat, destMax: nat, s: nat, e: nat, text: seq<byte>)
    requires 0 < destMax && d + destMax <= |m| && s <= e <= |m| && m[s..e] == text
    requires CopyResult(m, m', d, destMax, s, e - s, EOK)
    ensures d + |text| < d + destMax && m' == Put(m, d, text + [0])
    ensures d == s || e < d || d + |text| < s
    ensures forall k :: 0 <= k < |m| && !(d <= k < d + destMax) ==> m'[k] == m[k]
  {
    RangesMeet(d, e - s + 1, s, e - s + 1);
  }

  /** After EOK the destination holds the text and a terminator, within destMax; the source, unless
      it is the destination, and everything else is as it was. */
  lemma Copied(m: seq<byte>, m': seq<byte>, d: nat, destMax: nat, s: nat, n: nat)
    requires SizeOk(destMax) && d + destMax <= |m| && s <= |m| && Readable(m, s, n)
    requires CopyResult(m, m', d, destMax, s, MinLen(m, s, n), EOK)
    ensures |m'| == |m| && Readable(m', d, destMax)
    ensures Text(m', d, destMax) == Text(m, s, n) && |Text(m', d, destMax)| < destMax
    ensures d != s ==> Readable(m', s, n) && Text(m', s, n) == Text(m, s, n)
    ensures forall k :: 0 <= k < |m| && !(d <= k < d + destMax) ==> m'[k] == m[k]
  {
    hide MinLen, Readable, Put, CopyResult, Text, NoNul;
    var e := TextIs(m, s, n);
    var text := Text(m, s, n);
    EmptyHasNoNul([]);
    CopyIsPut(m, m', d, destMax, s, e, text);
    assert m[d..d] == [] && [] + text == text;
    Joined(m, m', d, d, [], text, destMax);
    if d != s {
      TextKept(m, m', d, text + [0], s, n, e);
    }
  }

  lemma WithNul(m: seq<byte>, s: nat, len: nat)
    requires s + len < |m| && m[s + len] == 0
    ensures m[s..s + len + 1] == m[s..s + len] + [0]
  {
  }

  lemma PutSame(m: seq<byte>, p: nat, len: nat)
    requires p + len < |m| && m[p + len] == 0
    ensures Put(m, p, m[p..p + len] + [0]) == m
  {
  }

  lemma PutNothing(m: seq<byte>, p: nat)
    requires p <= |m|
    ensures Put(m, p, []) == m
  {
  }

  lemma CopyFails(m: seq<byte>, d: nat, destMax: nat, s: nat, len: nat)
    requires 0 < destMax && d + destMax <= |m| && s + len <= |m|
    requires len >= destMax || !(StringNoOverlap(d, s, len) || d == s)
    ensures CopyResult(m, m[d := 0], d, destMax, s, len, if len >= destMax then ERANGE_AND_RESET
      else EOVERLAP_AND_RESET)
  {
    RangesMeet(d, len + 1, s, len + 1);
  }

  lemma CopySucceeds(m: seq<byte>, d: nat, destMax: nat, s: nat, len: nat)
    requires 0 < destMax && d + destMax <= |m| && s + len <= |m|
    requires len < destMax && (StringNoOverlap(d, s, len) || d == s)
    ensures d == s || d + len < s || s + len < d
    ensures CopyResult(m, Put(m, d, m[s..s + len] + [0]), d, destMax, s, len, EOK)
  {
    RangesMeet(d, len + 1, s, len + 1);
  }

  function Least(a: nat, b: nat): (r: nat)
    ensures r <= a && r <= b && (r == a || r == b)
  {
    if a < b then a else b
  }

  /** No terminator among the first `n` bytes. */
  ghost predicate TooLong(m: seq<byte>, s: nat, n: nat) {
    forall k: nat :: s <= k < s + n ==> k < |m| && m[k] != 0
  }

  /** What EOK of strncpy_s means: `count` characters, or the whole string if there is room for them. */
  ghost predicate CopiedAtMost(m: seq<byte>, m': seq<byte>, d: nat, destMax: nat, s: nat, count: nat)
    requires s <= |m|
  {
    && |m'| == |m| && d <= |m| && Readable(m', d, destMax) && |Text(m', d, destMax)| <= count
    && (count < destMax ==> Readable(m, s, count) && Text(m', d, destMax) == Text(m, s, count))
    && (count >= destMax ==> Readable(m, s, destMax) && Text(m', d, destMax) == Text(m, s, destMax)
                             && |Text(m, s, destMax)| < destMax)
  }

  lemma CopyAtMost(m: seq<byte>, m': seq<byte>, d: nat, destMax: nat, s: nat, count: nat, code: nat)
    requires SizeOk(destMax) && d + destMax <= |m| && s <= |m| && Readable(m, s, Least(count, destMax))
    requires CopyResult(m, m', d, destMax, s, MinLen(m, s, Least(count, destMax)), code)
    ensures code == EOK ==> CopiedAtMost(m, m', d, destMax, s, count)
    ensures code == ERANGE_AND_RESET <==> count >= destMax && TooLong(m, s, destMax)
  {
    hide Readable, MinLen, Put, CopyResult;
    var n := Least(count, destMax);
    var len := MinLen(m, s, n);
    if code == EOK {
      Copied(m, m', d, destMax, s, n);
    }
    LengthOrLimit(m, m', d, destMax, s, len, code);
    assert len < n ==> !TooLong(m, s, destMax) by {
      if len < n {
        assert m[s + len] == 0;
      }
    }
  }

  lemma LengthOrLimit(m: seq<byte>, m': seq<byte>, d: nat, destMax: nat, s: nat, len: nat, code: nat)
    requires 0 < destMax && d + destMax <= |m| && s + len <= |m| && CopyResult(m, m', d, destMax, s, len, code)
    ensures code == ERANGE_AND_RESET <==> len >= destMax
  {
  }

  /** Reads one byte more than it counts. */
  method CheckSrcCountRange(mem: array<byte>, d: nat, destMax: nat, s: nat, count: nat) returns (code: nat)
    requires 0 < destMax && d < mem.Length && Readable(mem[..], s, Least(destMax, count) + 1)
    modifies mem
    ensures code == EOK || code == ERANGE_AND_RESET
    ensures code == ERANGE_AND_RESET <==>
      count >= destMax && old(MinLen(mem[..], s, Least(destMax, count) + 1)) >= destMax
    ensures mem[..] == if code == EOK then old(mem[..]) else old(mem[..])[d := 0]
  {
    var tmpDestMax: int, tmpCount: int, endPos := destMax, count, s;
    while mem[endPos] != 0 && tmpDestMax > 0 && tmpCount > 0
      invariant 0 <= tmpDestMax <= destMax && 0 <= tmpCount <= count
      invariant destMax - tmpDestMax == count - tmpCount == endPos - s
      invariant Readable(mem[..], endPos, Least(tmpDestMax, tmpCount) + 1)
      invariant mem[..] == old(mem[..])
      invariant endPos - s + MinLen(mem[..], endPos, Least(tmpDestMax, tmpCount) + 1) ==
        MinLen(mem[..], s, Least(destMax, count) + 1)
      decreases tmpDestMax
    {
      endPos := endPos + 1;
      tmpCount := tmpCount - 1;
      tmpDestMax := tmpDestMax - 1;
    }
    if tmpDestMax == 0 {
      mem[d] := 0;
      return ERANGE_AND_RESET;
    }
    return EOK;
  }

  /** Handles what strncpy_s turned away.  With arguments that strncpy_s accepts, which it never
      passes on, the source would be measured. */
  method strncpy_error(mem: array<byte>, dest: Pointer, destMax: nat, src: Pointer, count: nat) returns (code: nat)
    requires Usable(mem[..], dest, destMax)
    requires Checked(dest, destMax, src) && 0 < count <= MAX_LEN ==>
      Readable(mem[..], src.addr, Least(destMax, count) + 1)
    modifies mem
    ensures Refused(old(mem[..]), mem[..], dest, destMax, src, code)
    ensures Checked(dest, destMax, src) && count == 0 ==> code == EOK && mem[..] == old(mem[..])[dest.addr := 0]
    ensures Checked(dest, destMax, src) && count > MAX_LEN ==> code == ERANGE_AND_RESET
    ensures Checked(dest, destMax, src) && 0 < count <= MAX_LEN ==>
      code == (if count >= destMax && old(MinLen(mem[..], src.addr, Least(destMax, count) + 1)) >= destMax
               then ERANGE_AND_RESET else EOK)
      && (code == EOK ==> mem[..] == old(mem[..]))
  {
    if destMax == 0 || destMax > MAX_LEN {
      return ERANGE;
    } else if dest == NULL || src == NULL {
      if dest != NULL {
        mem[dest.addr] := 0;
        return EINVAL_AND_RESET;
      }
      return EINVAL;
    } else if count > MAX_LEN {
      mem[dest.addr] := 0;
      return ERANGE_AND_RESET;
    } else if count == 0 {
      mem[dest.addr] := 0;
      return EOK;
    }
    code := CheckSrcCountRange(mem, dest.addr, destMax, src.addr, count);
  }

  method strncpy_s(mem: array<byte>, dest: Pointer, destMax: nat, src: Pointer, count: nat) returns (code: nat)
    requires Usable(mem[..], dest, destMax)
    requires Checked(dest, destMax, src) && count <= MAX_LEN ==>
      src.addr <= mem.Length && Readable(mem[..], src.addr, Least(count, destMax))
    modifies mem
    ensures Refused(old(mem[..]), mem[..], dest, destMax, src, code)
    ensures Checked(dest, destMax, src) ==>
      (code == ERANGE_AND_RESET <==> count > MAX_LEN || (count >= destMax && TooLong(old(mem[..]), src.addr, destMax)))
    ensures Checked(dest, destMax, src) && count <= MAX_LEN && code == EOK ==>
      CopiedAtMost(old(mem[..]), mem[..], dest.addr, destMax, src.addr, count)
    ensures Checked(dest, destMax, src) && count <= MAX_LEN ==>
      CopyResult(old(mem[..]), mem[..], dest.addr, destMax, src.addr,
        old(MinLen(mem[..], src.addr, Least(count, destMax))), code)
  {
    hide CopyResult, CopiedAtMost, TooLong, MinLen, Readable, Put;
    ghost var was := mem[..];
    if Checked(dest, destMax, src) && 0 < count <= MAX_LEN {
      var d, s := dest.addr, src.addr;
      var minCpLen := SecStrMinLen(mem, s, Least(count, destMax));
      if minCpLen >= destMax || !(StringNoOverlap(d, s, minCpLen) || d == s) {
        CopyFails(was, d, destMax, s, minCpLen);
        CopyAtMost(was, was[d := 0], d, destMax, s, count, if minCpLen >= destMax then ERANGE_AND_RESET
          else EOVERLAP_AND_RESET);
      } else {
        CopySucceeds(was, d, destMax, s, minCpLen);
        CopyAtMost(was, Put(was, d, was[s..s + minCpLen] + [0]), d, destMax, s, count, EOK);
      }
      if count >= destMax && minCpLen == destMax {
        mem[d] := 0;
        return ERANGE_AND_RESET;
      }
      if StringNoOverlap(d, s, minCpLen) || d == s {
        CopyCharacters(mem, d, s, minCpLen);
        return EOK;
      } else {
        mem[d] := 0;
        return EOVERLAP_AND_RESET;
      }
    }
    code := strncpy_error(mem, dest, destMax, src, count);
    if Checked(dest, destMax, src) && count == 0 {
      CopySucceeds(was, dest.addr, destMax, src.addr, 0);
      PutTerminated(was, dest.addr, was[src.addr..src.addr + 0]);
      PutNothing(was, dest.addr);
      CopyAtMost(was, mem[..], dest.addr, destMax, src.addr, 0, EOK);
    }
  }

  /** Reads one byte more than it counts. */
  method CheckSrcRange(mem: array<byte>, d: nat, destMax: nat, s: nat) returns (code: nat)
    requires 0 < destMax && d < mem.Length && Readable(mem[..], s, destMax + 1)
    modifies mem
    ensures code == EOK || code == ERANGE_AND_RESET
    ensures code == ERANGE_AND_RESET <==> old(MinLen(mem[..], s, destMax + 1)) >= destMax
    ensures mem[..] == if code == EOK then old(mem[..]) else old(mem[..])[d := 0]
  {
    var tmpDestMax: int, tmpSrc := destMax, s;
    while mem[tmpSrc] != 0 && tmpDestMax > 0
      invariant 0 <= tmpDestMax <= destMax && tmpSrc == s + (destMax - tmpDestMax)
      invariant Readable(mem[..], tmpSrc, tmpDestMax + 1)
      invariant tmpSrc - s + MinLen(mem[..], tmpSrc, tmpDestMax + 1) == MinLen(mem[..], s, destMax + 1)
      decreases tmpDestMax
    {
      tmpSrc := tmpSrc + 1;
      tmpDestMax := tmpDestMax - 1;
    }
    if tmpDestMax == 0 {
      mem[d] := 0;
      return ERANGE_AND_RESET;
    }
    return EOK;
  }

  method strcpy_error(mem: array<byte>, dest: Pointer, destMax: nat, src: Pointer) returns (code: nat)
    requires Usable(mem[..], dest, destMax)
    requires Checked(dest, destMax, src) ==> Readable(mem[..], src.addr, destMax + 1)
    modifies mem
    ensures Refused(old(mem[..]), mem[..], dest, destMax, src, code)
    ensures Checked(dest, destMax, src) ==>
      code == if old(MinLen(mem[..], src.addr, destMax + 1)) >= destMax then ERANGE_AND_RESET else EOK
    ensures code == EOK ==> mem[..] == old(mem[..])
  {
    if destMax == 0 || destMax > MAX_LEN {
      return ERANGE;
    } else if dest == NULL || src == NULL {
      if dest != NULL {
        mem[dest.addr] := 0;
        return EINVAL_AND_RESET;
      }
      return EINVAL;
    }
    code := CheckSrcRange(mem, dest.addr, destMax, src.addr);
  }

  /** The terminator of the source, or one byte more than destMax, has to be readable. */
  method strcpy_s(mem: array<byte>, dest: Pointer, destMax: nat, src: Pointer) returns (code: nat)
    requires Usable(mem[..], dest, destMax)
    requires Checked(dest, destMax, src) ==>
      src.addr <= mem.Length && Readable(mem[..], src.addr, destMax) && Readable(mem[..], src.addr, destMax + 1)
    modifies mem
    ensures Refused(old(mem[..]), mem[..], dest, destMax, src, code)
    ensures Checked(dest, destMax, src) ==>
      CopyResult(old(mem[..]), mem[..], dest.addr, destMax, src.addr, old(MinLen(mem[..], src.addr, destMax)), code)
  {
    hide CopyResult, MinLen, Readable, Put;
    ghost var was := mem[..];
    if Checked(dest, destMax, src) {
      ReadableLess(was, src.addr, destMax + 1, destMax);
    }
    if Checked(dest, destMax, src) && dest != src {
      var d, s := dest.addr, src.addr;
      var len := SecStrMinLen(mem, s, destMax);
      var srcStrLen := len + 1;
      if srcStrLen <= destMax {
        if !StringNoOverlap(d, s, len) {
          CopyFails(was, d, destMax, s, len);
        } else {
          CopySucceeds(was, d, destMax, s, len);
        }
        if MemoryNoOverlap(d, s, srcStrLen) {
          WithNul(was, s, len);
          SecDoMemcpy(mem, d, s, srcStrLen);
          return EOK;
        } else {
          mem[d] := 0;
          return EOVERLAP_AND_RESET;
        }
      }
    }
    code := strcpy_error(mem, dest, destMax, src);
    if Checked(dest, destMax, src) {
      LeftAlone(was, dest.addr, destMax, src.addr, MinLen(was, src.addr, destMax));
    }
  }

  /** Copying a text onto itself, or giving up because it is too long. */
  lemma LeftAlone(m: seq<byte>, d: nat, destMax: nat, s: nat, len: nat)
    requires 0 < destMax && d + destMax <= |m| && s + len <= |m|
    ensures len >= destMax ==> CopyResult(m, m[d := 0], d, destMax, s, len, ERANGE_AND_RESET)
    ensures len < destMax && d == s && m[s + len] == 0 ==> CopyResult(m, m, d, destMax, s, len, EOK)
  {
    if len >= destMax {
      CopyFails(m, d, destMax, s, len);
    } else if d == s && m[s + len] == 0 {
      CopySucceeds(m, d, destMax, s, len);
      PutSame(m, d, len);
    }
  }
}
