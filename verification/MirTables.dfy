/** The tables of one function and the names the inliner gives their new entries:
    mapleall/maple_ir/include/mir_symbol.h, mapleall/maple_ir/include/mir_preg.h and the
    Rename functions of mapleall/maple_ipa/src/inline.cpp. */
module MirTables {
  import opened Options

  // ---------------------------------------------------------------- mangled names

  /** std::to_string */
  function Digits(n: nat): (r: string)
    ensures r != [] && forall i :: 0 <= i < |r| ==> '0' <= r[i] <= '9'
  {
    if n < 10 then ['0' + n as char] else Digits(n / 10) + ['0' + (n % 10) as char]
  }

  lemma {:induction false} DigitsApart(m: nat, n: nat)
    requires Digits(m) == Digits(n)
    ensures m == n
  {
    if m >= 10 && n >= 10 {
      assert Digits(m)[..|Digits(m)| - 1] == Digits(m / 10) && Digits(n)[..|Digits(n)| - 1] == Digits(n / 10);
      DigitsApart(m / 10, n / 10);
      assert Digits(m)[|Digits(m)| - 1] == '0' + (m % 10) as char;
      assert Digits(n)[|Digits(n)| - 1] == '0' + (n % 10) as char;
    }
  }

  /** The number that the digits stand for. */
  function Decimal(s: string): int {
    if s == [] then 0 else 10 * Decimal(s[..|s| - 1]) + (s[|s| - 1] as int - '0' as int)
  }

  lemma {:induction false} DigitsRoundTrip(n: nat)
    ensures Decimal(Digits(n)) == n && (Digits(n)[0] == '0' ==> n == 0)
  {
    if n >= 10 {
      DigitsRoundTrip(n / 10);
      assert Digits(n)[..|Digits(n)| - 1] == Digits(n / 10);
    } else {
      assert Digits(n)[..0] == [];
    }
  }

  function Mangled(puIdx: nat, name: string, times: nat): string {
    ['_'] + Digits(puIdx) + ['|'] + name + ['_'] + Digits(times)
  }

  function ReturnLabelName(puIdx: nat, times: nat): string {
    ['_'] + Digits(puIdx) + ['|'] + "return_loc_" + Digits(times)
  }

  /** The second inlining of function number 7 makes such names. */
  lemma MangledExample()
    ensures Mangled(7, "x", 1) == "_7|x_1" && ReturnLabelName(7, 1) == "_7|return_loc_1"
  {
    assert Digits(7) == "7" && Digits(1) == "1";
  }

  predicate Without(s: string, c: char) {
    forall i :: 0 <= i < |s| ==> s[i] != c
  }

  lemma FirstBar(a: string, x: string, b: string, y: string)
    requires a + ['|'] + x == b + ['|'] + y && Without(a, '|') && Without(b, '|')
    ensures a == b && x == y
  {
    var s := a + ['|'] + x;
    assert s[|a|] == '|' && s[|b|] == '|';
    if |a| < |b| {
      assert false;
    } else if |b| < |a| {
      assert false;
    }
    assert a == s[..|a|] && b == s[..|b|];
    assert x == s[|a| + 1..] && y == s[|b| + 1..];
  }

  lemma LastUnderscore(x: string, a: string, y: string, b: string)
    requires x + ['_'] + a == y + ['_'] + b && Without(a, '_') && Without(b, '_')
    ensures a == b && x == y
  {
    var s := x + ['_'] + a;
    assert s[|x|] == '_' && s[|y|] == '_';
    if |x| < |y| {
      assert false;
    } else if |y| < |x| {
      assert false;
    }
    assert x == s[..|x|] && y == s[..|y|];
    assert a == s[|x| + 1..] && b == s[|y| + 1..];
  }

  /** Names made for different functions, entries or inlinings never meet. */
  lemma MangledApart(pu: nat, a: string, s: nat, qu: nat, b: string, t: nat)
    ensures Mangled(pu, a, s) == Mangled(qu, b, t) <==> pu == qu && a == b && s == t
  {
    if Mangled(pu, a, s) == Mangled(qu, b, t) {
      var x, y := ['_'] + Digits(pu) + ['|'] + a, ['_'] + Digits(qu) + ['|'] + b;
      LastUnderscore(x, Digits(s), y, Digits(t));
      FirstBar(['_'] + Digits(pu), a, ['_'] + Digits(qu), b);
      assert (['_'] + Digits(pu))[1..] == Digits(pu) && (['_'] + Digits(qu))[1..] == Digits(qu);
      DigitsApart(pu, qu);
      DigitsApart(s, t);
    }
  }

  // ---------------------------------------------------------------- symbols

  datatype StorageClass = ScAuto | ScFormal | ScPstatic | ScOther

  datatype Symbol = Symbol(name: string, storage: StorageClass, tyIdx: nat, isTmp: bool, isDeleted: bool)

  class MIRSymbolTable {
    var symbolTable: seq<Option<Symbol>>
    var strIdxToStIdxMap: map<string, nat>

    predicate Valid()
      reads this
    {
      && |symbolTable| >= 1 && symbolTable[0] == None
      && (forall s :: s in strIdxToStIdxMap ==>
            (var i := strIdxToStIdxMap[s]; i < |symbolTable| && symbolTable[i].Some? && symbolTable[i].value.name == s))
    }

    function Now(): Contents
      reads this
    {
      Contents(symbolTable, strIdxToStIdxMap)
    }

    constructor ()
      ensures Valid() && symbolTable == [None] && strIdxToStIdxMap == map[]
    {
      symbolTable := [None];
      strIdxToStIdxMap := map[];
    }

    /** False when the name is taken; the symbol is in the table all the same. */
    method AddStOutside(sym: Symbol) returns (ok: bool)
      requires Valid()
      modifies this
      ensures Valid() && symbolTable == old(symbolTable) + [Some(sym)]
      ensures ok <==> sym.name !in old(strIdxToStIdxMap)
      ensures strIdxToStIdxMap == if ok then old(strIdxToStIdxMap)[sym.name := |old(symbolTable)|]
        else old(strIdxToStIdxMap)
    {
      symbolTable := symbolTable + [Some(sym)];
      if sym.name in strIdxToStIdxMap {
        return false;
      }
      strIdxToStIdxMap := strIdxToStIdxMap[sym.name := |symbolTable| - 1];
      return true;
    }
  }

  /** Entries that get a copy among the caller's locals. */
  predicate Copied(t: seq<Option<Symbol>>, i: nat) {
    i < |t| && t[i].Some? && !t[i].value.storage.ScPstatic?
  }

  function Renamed(s: Symbol, puIdx: nat, times: nat): Symbol {
    s.(name := Mangled(puIdx, s.name, times), storage := if s.storage.ScFormal? then ScAuto else s.storage,
       isTmp := true, isDeleted := false)
  }

  /** The new symbol has the new name, is automatic where the old one was a formal, is temporary and
      not deleted; all else is kept. */
  ghost predicate IsCopy(s: Option<Symbol>, r: Option<Symbol>, puIdx: nat, times: nat) {
    && s.Some? && r.Some? && r.value.name == Mangled(puIdx, s.value.name, times) && r.value.tyIdx == s.value.tyIdx
    && (s.value.storage.ScFormal? ==> r.value.storage.ScAuto?)
    && (!s.value.storage.ScFormal? ==> r.value.storage == s.value.storage)
    && r.value.isTmp && !r.value.isDeleted
  }

  function RenamedEntry(e: Option<Symbol>, puIdx: nat, times: nat): Option<Symbol> {
    if e.Some? then Some(Renamed(e.value, puIdx, times)) else None
  }

  /** After a hole in the table nothing is copied any more. */
  ghost predicate NoGap(t: seq<Option<Symbol>>) {
    forall i: nat, j: nat | 1 <= i < j && Copied(t, j) :: Copied(t, i)
  }

  ghost predicate NamesDiffer(t: seq<Option<Symbol>>) {
    forall i: nat, j: nat | i < j && Copied(t, i) && Copied(t, j) :: t[i].value.name != t[j].value.name
  }

  ghost predicate NamesFree(t: seq<Option<Symbol>>, taken: map<string, nat>, puIdx: nat, times: nat) {
    forall i: nat | Copied(t, i) :: Mangled(puIdx, t[i].value.name, times) !in taken
  }

  /** The copies of the `k` entries after entry 0. */
  function Copies(t: seq<Option<Symbol>>, k: nat, puIdx: nat, times: nat): (r: seq<Option<Symbol>>)
    requires k < |t|
    ensures |r| == k
    ensures forall i :: 1 <= i <= k ==> r[i - 1] == RenamedEntry(t[i], puIdx, times)
  {
    if k == 0 then [] else Copies(t, k - 1, puIdx, times) + [RenamedEntry(t[k], puIdx, times)]
  }

  /** `k` copies were added to the name map. */
  ghost predicate NamesAdded(t: seq<Option<Symbol>>, k: nat, puIdx: nat, times: nat, before: map<string, nat>,
                             size: nat, now: map<string, nat>) {
    && (forall s :: s in before ==> s in now && now[s] == before[s])
    && (forall i: nat | 1 <= i <= k && Copied(t, i) ::
          Mangled(puIdx, t[i].value.name, times) in now && now[Mangled(puIdx, t[i].value.name, times)] == size - 1 + i)
    && (forall s :: s in now && s !in before ==>
          exists i: nat :: 1 <= i <= k && Copied(t, i) && s == Mangled(puIdx, t[i].value.name, times))
  }

  lemma NameAdded(t: seq<Option<Symbol>>, k: nat, puIdx: nat, times: nat, before: map<string, nat>, size: nat,
                  now: map<string, nat>)
    requires NamesAdded(t, k, puIdx, times, before, size, now) && Copied(t, k + 1)
    requires Mangled(puIdx, t[k + 1].value.name, times) !in now
    ensures NamesAdded(t, k + 1, puIdx, times, before, size,
      now[Mangled(puIdx, t[k + 1].value.name, times) := size + k])
  {
    hide Mangled;
  }

  lemma NameClash(t: seq<Option<Symbol>>, k: nat, puIdx: nat, times: nat, before: map<string, nat>, size: nat,
                  now: map<string, nat>, i: nat)
    requires NamesAdded(t, k, puIdx, times, before, size, now) && k < i && Copied(t, i)
    ensures NamesFree(t, before, puIdx, times) && NamesDiffer(t) ==> Mangled(puIdx, t[i].value.name, times) !in now
    ensures NamesFree(t, before, puIdx, times) && Mangled(puIdx, t[i].value.name, times) in now ==> !NamesDiffer(t)
  {
    hide Mangled;
    var s := Mangled(puIdx, t[i].value.name, times);
    if s in now && s !in before {
      var j: nat :| 1 <= j <= k && Copied(t, j) && s == Mangled(puIdx, t[j].value.name, times);
      MangledApart(puIdx, t[i].value.name, times, puIdx, t[j].value.name, times);
    }
  }

  /** The contents of a symbol table. */
  datatype Contents = Contents(table: seq<Option<Symbol>>, names: map<string, nat>)

  ghost predicate CanCopy(t: seq<Option<Symbol>>, to: Contents, puIdx: nat, times: nat) {
    NoGap(t) && NamesDiffer(t) && NamesFree(t, to.names, puIdx, times)
  }

  /** The `k` copies stand behind what the caller had, under free and different names. */
  ghost predicate CopiesAdded(t: seq<Option<Symbol>>, k: nat, puIdx: nat, times: nat, before: Contents, now: Contents) {
    && k < |t|
    && now.table == before.table + Copies(t, k, puIdx, times)
    && NamesAdded(t, k, puIdx, times, before.names, |before.table|, now.names)
  }

  ghost predicate NamesFine(t: seq<Option<Symbol>>, k: nat, puIdx: nat, times: nat, before: Contents) {
    && (forall j: nat :: j <= k && Copied(t, j) ==> Mangled(puIdx, t[j].value.name, times) !in before.names)
    && (forall j: nat, l: nat :: j < l <= k && Copied(t, j) && Copied(t, l) ==> t[j].value.name != t[l].value.name)
  }

  lemma OneMoreFine(t: seq<Option<Symbol>>, k: nat, puIdx: nat, times: nat, before: Contents, size: nat,
                    now: map<string, nat>)
    requires NamesFine(t, k, puIdx, times, before) && Copied(t, k + 1)
    requires NamesAdded(t, k, puIdx, times, before.names, size, now)
    requires Mangled(puIdx, t[k + 1].value.name, times) !in now
    requires t[0] == None
    ensures NamesFine(t, k + 1, puIdx, times, before)
  {
    hide Mangled;
  }

  /** The first `i` entries of the callee are done; exactly 1 to `k` are copied. */
  ghost predicate Progress(t: seq<Option<Symbol>>, i: nat, k: nat, puIdx: nat, times: nat, before: Contents,
                           now: Contents) {
    && (k == 0 || k < i)
    && CopiesAdded(t, k, puIdx, times, before, now)
    && (forall j: nat :: j < i ==> (Copied(t, j) <==> 1 <= j <= k))
    && NamesFine(t, k, puIdx, times, before)
  }

  lemma ProgressDone(t: seq<Option<Symbol>>, k: nat, puIdx: nat, times: nat, before: Contents, now: Contents)
    requires Progress(t, |t|, k, puIdx, times, before, now)
    ensures CanCopy(t, before, puIdx, times)
    ensures forall i: nat :: Copied(t, i) <==> 1 <= i <= k
  {
    hide Mangled, NamesAdded;
  }

  lemma ProgressAdds(t: seq<Option<Symbol>>, i: nat, k: nat, puIdx: nat, times: nat, before: Contents, now: Contents)
    requires Progress(t, i, k, puIdx, times, before, now) && Copied(t, i) && t[0] == None
    requires Mangled(puIdx, t[i].value.name, times) !in now.names && |now.table| == |before.table| - 1 + i
    ensures i == k + 1
    ensures Progress(t, i + 1, i, puIdx, times, before,
                     Contents(now.table + [RenamedEntry(t[i], puIdx, times)],
                              now.names[Mangled(puIdx, t[i].value.name, times) := |now.table|]))
  {
    hide Mangled, Renamed, NamesAdded, NamesFine;
    NameAdded(t, k, puIdx, times, before.names, |before.table|, now.names);
    OneMoreFine(t, k, puIdx, times, before, |before.table|, now.names);
    assert now.table + [RenamedEntry(t[i], puIdx, times)] ==
      before.table + (Copies(t, k, puIdx, times) + [RenamedEntry(t[i], puIdx, times)]);
  }

  lemma ProgressFails(t: seq<Option<Symbol>>, i: nat, k: nat, puIdx: nat, times: nat, before: Contents, now: Contents)
    requires Progress(t, i, k, puIdx, times, before, now) && Copied(t, i) && t[0] == None
    requires Mangled(puIdx, t[i].value.name, times) in now.names || |now.table| != |before.table| - 1 + i
    ensures !CanCopy(t, before, puIdx, times)
  {
    hide Mangled, Renamed, NamesAdded, NamesFine;
    NameClash(t, k, puIdx, times, before.names, |before.table|, now.names, i);
    if |now.table| != |before.table| - 1 + i {
      assert i > k + 1 && !Copied(t, k + 1);
    }
  }

  lemma ProgressSkips(t: seq<Option<Symbol>>, i: nat, k: nat, puIdx: nat, times: nat, before: Contents, now: Contents)
    requires Progress(t, i, k, puIdx, times, before, now) && !Copied(t, i)
    ensures Progress(t, i + 1, k, puIdx, times, before, now)
  {
    hide Mangled, NamesAdded, NamesFine;
  }

  /** MInline::RenameSymbols.  It stops the compiler exactly when a copied entry comes after one
      that is not, or a new name is taken; otherwise entry `i` of the callee becomes entry
      `i + off` of the caller under a new name, and nothing the caller had changes. */
  method RenameSymbols(caller: MIRSymbolTable, callee: MIRSymbolTable, puIdx: nat, times: nat)
    returns (ok: bool, off: nat, ghost k: nat)
    requires caller.Valid() && callee.Valid()
    modifies caller
    ensures off == |old(caller.symbolTable)| - 1 && caller.Valid()
    ensures ok <==> CanCopy(old(callee.symbolTable), old(caller.Now()), puIdx, times)
    ensures ok ==> forall i: nat :: Copied(old(callee.symbolTable), i) <==> 1 <= i <= k
    ensures ok ==> forall i: nat :: 1 <= i < |old(callee.symbolTable)| ==>
      (i <= k <==> old(callee.symbolTable)[i].Some? && old(callee.symbolTable)[i].value.storage != ScPstatic)
    ensures ok ==> CopiesAdded(old(callee.symbolTable), k, puIdx, times, old(caller.Now()), caller.Now())
    ensures ok ==>
      (&& k < |old(callee.symbolTable)| && |caller.symbolTable| == off + k + 1
       && (forall i: nat :: i <= off ==> caller.symbolTable[i] == old(caller.symbolTable)[i])
       && (forall i: nat :: 1 <= i <= k ==>
             IsCopy(old(callee.symbolTable)[i], caller.symbolTable[i + off], puIdx, times)))
  {
    hide Mangled, Progress, CanCopy, CopiesAdded;
    ghost var t, before := callee.symbolTable, caller.Now();
    var symtabsize := |callee.symbolTable|;
    off := |caller.symbolTable| - 1;
    k := 0;
    var i := 0;
    StartProgress(t, puIdx, times, before);
    while i < symtabsize
      invariant 0 <= i <= symtabsize == |t|
      invariant symtabsize <= |callee.symbolTable| && callee.symbolTable[..symtabsize] == t
      invariant caller.Valid() && t[0] == None
      invariant Progress(t, i, k, puIdx, times, before, caller.Now())
    {
      assert callee.symbolTable[i] == callee.symbolTable[..symtabsize][i];
      var sym := callee.symbolTable[i];
      if sym.Some? && !sym.value.storage.ScPstatic? {
        ghost var now := caller.Now();
        var added := caller.AddStOutside(Renamed(sym.value, puIdx, times));
        if !added || |caller.symbolTable| - 1 != i + off {
          ProgressFails(t, i, k, puIdx, times, before, now);
          return false, off, k;
        }
        ProgressAdds(t, i, k, puIdx, times, before, now);
        k := i;
      } else {
        ProgressSkips(t, i, k, puIdx, times, before, caller.Now());
      }
      i := i + 1;
    }
    ProgressDone(t, k, puIdx, times, before, caller.Now());
    ok := true;
    ProgressAdded(t, i, k, puIdx, times, before, caller.Now());
    AddedAreCopies(t, k, puIdx, times, before, caller.Now());
  }

  lemma AddedAreCopies(t: seq<Option<Symbol>>, k: nat, puIdx: nat, times: nat, before: Contents, now: Contents)
    requires CopiesAdded(t, k, puIdx, times, before, now) && (forall i: nat :: Copied(t, i) <==> 1 <= i <= k)
    ensures k < |t| && |now.table| == |before.table| + k && before.table <= now.table
    ensures forall i: nat :: 1 <= i < |t| ==> (i <= k <==> t[i].Some? && t[i].value.storage != ScPstatic)
    ensures forall i: nat :: 1 <= i <= k ==> IsCopy(t[i], now.table[i + |before.table| - 1], puIdx, times)
  {
    hide Mangled, NamesAdded;
    forall i: nat | 1 <= i < |t| ensures i <= k <==> t[i].Some? && t[i].value.storage != ScPstatic {
      assert Copied(t, i) <==> 1 <= i <= k;
    }
    forall i: nat | 1 <= i <= k ensures IsCopy(t[i], now.table[i + |before.table| - 1], puIdx, times) {
      assert Copied(t, i);
      assert now.table[i + |before.table| - 1] == Copies(t, k, puIdx, times)[i - 1];
    }
  }

  lemma StartProgress(t: seq<Option<Symbol>>, puIdx: nat, times: nat, before: Contents)
    requires t != [] && t[0] == None
    ensures Progress(t, 0, 0, puIdx, times, before, before)
  {
    assert before.table + [] == before.table;
  }

  lemma ProgressAdded(t: seq<Option<Symbol>>, i: nat, k: nat, puIdx: nat, times: nat, before: Contents, now: Contents)
    requires Progress(t, i, k, puIdx, times, before, now)
    ensures CopiesAdded(t, k, puIdx, times, before, now)
  {
  }

  // ---------------------------------------------------------------- inlining again

  /** No name of the table was made for this function at this or a later inlining. */
  ghost predicate FreeFrom(names: map<string, nat>, puIdx: nat, times: nat) {
    forall a: string, t: nat | times <= t :: Mangled(puIdx, a, t) !in names
  }

  /** Names stay free over any sequence of inlinings: the next inlining of the same function finds
      its own names free, and those of other functions are untouched. */
  lemma StaysFree(t: seq<Option<Symbol>>, k: nat, puIdx: nat, times: nat, before: Contents, now: Contents, qu: nat,
                  s: nat)
    requires CopiesAdded(t, k, puIdx, times, before, now)
    requires FreeFrom(before.names, qu, s) && (qu == puIdx ==> times < s)
    ensures FreeFrom(now.names, qu, s)
    ensures forall u: seq<Option<Symbol>> :: NamesFree(u, now.names, qu, s)
  {
    hide Mangled, Copies;
    forall a: string, v: nat | s <= v ensures Mangled(qu, a, v) !in now.names {
      if Mangled(qu, a, v) in now.names {
        var i: nat :| 1 <= i <= k && Copied(t, i) && Mangled(qu, a, v) == Mangled(puIdx, t[i].value.name, times);
        MangledApart(qu, a, v, puIdx, t[i].value.name, times);
      }
    }
  }

  // ---------------------------------------------------------------- labels

  class MIRLabelTable {
    var labelTable: seq<string>
    var strIdxToLabIdxMap: map<string, nat>

    /** Label indices start at 1. */
    constructor ()
      ensures labelTable == [""] && strIdxToLabIdxMap == map[]
    {
      labelTable := [""];
      strIdxToLabIdxMap := map[];
    }

    /** A taken name is no obstacle: the map then gives the newest label of that name. */
    method AddLabel(name: string) returns (labIdx: nat)
      modifies this
      ensures labIdx == |old(labelTable)|
      ensures labelTable == old(labelTable) + [name]
      ensures strIdxToLabIdxMap == old(strIdxToLabIdxMap)[name := labIdx]
    {
      labIdx := |labelTable|;
      labelTable := labelTable + [name];
      strIdxToLabIdxMap := strIdxToLabIdxMap[name := labIdx];
    }
  }

  function LabelCopies(t: seq<string>, k: nat, puIdx: nat, times: nat): (r: seq<string>)
    requires k < |t|
    ensures |r| == k
    ensures forall i :: 1 <= i <= k ==> r[i - 1] == Mangled(puIdx, t[i], times)
  {
    if k == 0 then [] else LabelCopies(t, k - 1, puIdx, times) + [Mangled(puIdx, t[k], times)]
  }

  /** MInline::RenameLabels: label `i` of the callee becomes label `i + off` of the caller. */
  method RenameLabels(caller: MIRLabelTable, callee: MIRLabelTable, puIdx: nat, times: nat) returns (off: nat)
    requires caller.labelTable != [] && callee.labelTable != []
    modifies caller
    ensures off == |old(caller.labelTable)| - 1
    ensures caller.labelTable
         == old(caller.labelTable) + LabelCopies(old(callee.labelTable), |old(callee.labelTable)| - 1, puIdx, times)
  {
    hide Mangled;
    ghost var t, before := callee.labelTable, caller.labelTable;
    var size := |callee.labelTable|;
    off := |caller.labelTable| - 1;
    var i := 1;
    while i < size
      invariant 1 <= i <= size == |t|
      invariant size <= |callee.labelTable| && callee.labelTable[..size] == t
      invariant caller.labelTable == before + LabelCopies(t, i - 1, puIdx, times)
    {
      assert callee.labelTable[i] == callee.labelTable[..size][i];
      var labIdx := caller.AddLabel(Mangled(puIdx, callee.labelTable[i], times));
      assert labIdx == i + off;
      i := i + 1;
    }
  }

  /** MInline::CreateReturnLabel */
  method CreateReturnLabel(caller: MIRLabelTable, puIdx: nat, times: nat) returns (labIdx: nat)
    modifies caller
    ensures labIdx == |old(caller.labelTable)|
    ensures caller.labelTable == old(caller.labelTable) + [ReturnLabelName(puIdx, times)]
  {
    labIdx := caller.AddLabel(ReturnLabelName(puIdx, times));
  }

  // ---------------------------------------------------------------- pregs

  datatype PrimType = PtyPtr | PtyRef | PtyOther(code: nat)

  datatype MIRPreg = MIRPreg(pregNo: nat, primType: PrimType, mirType: Option<nat>, needRC: bool)

  class MIRPregTable {
    var maxPregNo: nat
    var pregNoToPregIdxMap: map<nat, nat>
    var pregTable: seq<Option<MIRPreg>>

    /** The map is the inverse of the table, and no number above maxPregNo is in use. */
    ghost predicate Valid()
      reads this
    {
      && |pregTable| >= 1 && pregTable[0] == None
      && (forall i :: 1 <= i < |pregTable| ==>
            pregTable[i].Some? && pregTable[i].value.pregNo <= maxPregNo
            && pregTable[i].value.pregNo in pregNoToPregIdxMap && pregNoToPregIdxMap[pregTable[i].value.pregNo] == i)
      && (forall n :: n in pregNoToPregIdxMap ==>
            1 <= pregNoToPregIdxMap[n] < |pregTable| && pregTable[pregNoToPregIdxMap[n]].Some?
            && pregTable[pregNoToPregIdxMap[n]].value.pregNo == n)
    }

    constructor ()
      ensures Valid() && pregTable == [None] && maxPregNo == 0
    {
      maxPregNo := 0;
      pregNoToPregIdxMap := map[];
      pregTable := [None];
    }

    function GetPregIdxFromPregNo(pregNo: nat): (r: nat)
      requires Valid()
      reads this
      ensures r == 0 <==> forall i :: 1 <= i < |pregTable| ==> pregTable[i].value.pregNo != pregNo
      ensures r != 0 ==> r < |pregTable| && pregTable[r].value.pregNo == pregNo
    {
      if pregNo in pregNoToPregIdxMap then pregNoToPregIdxMap[pregNo] else 0
    }

    method AddPreg(preg: MIRPreg) returns (idx: nat)
      requires Valid() && preg.pregNo <= maxPregNo && preg.pregNo !in pregNoToPregIdxMap
      modifies this`pregTable, this`pregNoToPregIdxMap
      ensures Valid() && idx == |old(pregTable)| && pregTable == old(pregTable) + [Some(preg)]
    {
      idx := |pregTable|;
      pregTable := pregTable + [Some(preg)];
      pregNoToPregIdxMap := pregNoToPregIdxMap[preg.pregNo := idx];
    }

    /** The new preg has a number that no preg of the table has. */
    method CreatePreg(primType: PrimType, mirType: Option<nat>) returns (idx: nat)
      requires Valid() && (mirType.None? || primType.PtyRef? || primType.PtyPtr?)
      modifies this
      ensures Valid() && idx == |old(pregTable)| && maxPregNo == old(maxPregNo) + 1
      ensures pregTable == old(pregTable) + [Some(MIRPreg(maxPregNo, primType, mirType, false))]
      ensures forall i :: 1 <= i < |old(pregTable)| ==> old(pregTable)[i].value.pregNo != maxPregNo
    {
      maxPregNo := maxPregNo + 1;
      idx := AddPreg(MIRPreg(maxPregNo, primType, mirType, false));
    }

    method ClonePreg(rfpreg: MIRPreg) returns (idx: nat)
      requires Valid() && (rfpreg.mirType.None? || rfpreg.primType.PtyRef? || rfpreg.primType.PtyPtr?)
      modifies this
      ensures Valid() && idx == |old(pregTable)| && maxPregNo == old(maxPregNo) + 1
      ensures pregTable == old(pregTable) + [Some(rfpreg.(pregNo := maxPregNo))]
    {
      idx := CreatePreg(rfpreg.primType, rfpreg.mirType);
      pregTable := pregTable[idx := Some(pregTable[idx].value.(needRC := rfpreg.needRC))];
    }

    /** A number that is known keeps its index; another one is entered. */
    method EnterPregNo(pregNo: nat, primType: PrimType, mirType: Option<nat>) returns (idx: nat)
      requires Valid()
      modifies this
      ensures Valid() && 1 <= idx < |pregTable| && pregTable[idx].value.pregNo == pregNo
      ensures GetPregIdxFromPregNo(pregNo) == idx
      ensures maxPregNo == if pregNo > old(maxPregNo) then pregNo else old(maxPregNo)
      ensures pregTable == if old(GetPregIdxFromPregNo(pregNo)) != 0 then old(pregTable)
                           else old(pregTable) + [Some(MIRPreg(pregNo, primType, mirType, false))]
    {
      idx := GetPregIdxFromPregNo(pregNo);
      if idx == 0 {
        if pregNo > maxPregNo {
          maxPregNo := pregNo;
        }
        idx := AddPreg(MIRPreg(pregNo, primType, mirType, false));
      }
    }
  }

  /** The copy of a preg under a new number; only pointers and references keep type and count flag. */
  function PregCopy(preg: MIRPreg, pregNo: nat): MIRPreg {
    if preg.primType.PtyPtr? || preg.primType.PtyRef? then preg.(pregNo := pregNo)
    else MIRPreg(pregNo, preg.primType, None, false)
  }

  /** The new preg has the type, and what else belongs to a pointer or reference. */
  ghost predicate IsPregCopy(p: Option<MIRPreg>, r: Option<MIRPreg>, pregNo: nat) {
    && p.Some? && r.Some? && r.value.pregNo == pregNo && r.value.primType == p.value.primType
    && (p.value.primType.PtyPtr? || p.value.primType.PtyRef? ==>
          r.value.mirType == p.value.mirType && r.value.needRC == p.value.needRC)
    && (p.value.primType.PtyOther? ==> r.value.mirType == None && !r.value.needRC)
  }

  function PregCopies(t: seq<Option<MIRPreg>>, k: nat, top: nat): (r: seq<Option<MIRPreg>>)
    requires k < |t|
    ensures |r| == k
    ensures forall i :: 1 <= i <= k && t[i].Some? ==> r[i - 1] == Some(PregCopy(t[i].value, top + i))
  {
    if k == 0 then []
    else PregCopies(t, k - 1, top) + [if t[k].Some? then Some(PregCopy(t[k].value, top + k)) else None]
  }

  method CopyPreg(caller: MIRPregTable, mirpreg: MIRPreg) returns (idx: nat)
    requires caller.Valid()
    modifies caller
    ensures caller.Valid() && idx == |old(caller.pregTable)| && caller.maxPregNo == old(caller.maxPregNo) + 1
    ensures caller.pregTable == old(caller.pregTable) + [Some(PregCopy(mirpreg, caller.maxPregNo))]
  {
    if mirpreg.primType.PtyPtr? || mirpreg.primType.PtyRef? {
      idx := caller.ClonePreg(mirpreg);
    } else {
      idx := caller.CreatePreg(mirpreg.primType, None);
    }
  }

  lemma EntriesAreThere(tab: MIRPregTable)
    requires tab.Valid()
    ensures tab.pregTable != [] && forall i :: 1 <= i < |tab.pregTable| ==> tab.pregTable[i].Some?
  {
  }

  /** The first `k` pregs after entry 0 are copied, and `m` sends each to its copy. */
  ghost predicate PregsCopied(t: seq<Option<MIRPreg>>, k: nat, top: nat, before: seq<Option<MIRPreg>>,
                              now: seq<Option<MIRPreg>>, m: map<nat, nat>) {
    && k < |t|
    && now == before + PregCopies(t, k, top)
    && (forall i :: i in m <==> 1 <= i <= k)
    && (forall i :: i in m ==> m[i] == i + |before| - 1)
  }

  lemma OneMorePreg(t: seq<Option<MIRPreg>>, k: nat, top: nat, before: seq<Option<MIRPreg>>, now: seq<Option<MIRPreg>>,
                    m: map<nat, nat>)
    requires PregsCopied(t, k, top, before, now, m) && k + 1 < |t| && t[k + 1].Some?
    ensures PregsCopied(t, k + 1, top, before, now + [Some(PregCopy(t[k + 1].value, top + (k + 1)))], m[k + 1 := |now|])
  {
    var e := Some(PregCopy(t[k + 1].value, top + (k + 1)));
    assert before + PregCopies(t, k, top) + [e] == before + (PregCopies(t, k, top) + [e]);
  }

  lemma NoPregYet(t: seq<Option<MIRPreg>>, top: nat, before: seq<Option<MIRPreg>>)
    requires t != []
    ensures PregsCopied(t, 0, top, before, before, map[])
  {
    assert before + [] == before;
  }

  lemma CopiedPregs(t: seq<Option<MIRPreg>>, k: nat, top: nat, before: seq<Option<MIRPreg>>,
                    now: seq<Option<MIRPreg>>, m: map<nat, nat>)
    requires PregsCopied(t, k, top, before, now, m) && before != [] && forall i :: 1 <= i <= k ==> t[i].Some?
    ensures |now| == |before| + k && before <= now
    ensures forall i :: 1 <= i <= k ==> IsPregCopy(t[i], now[i + |before| - 1], top + i)
  {
    forall i | 1 <= i <= k ensures IsPregCopy(t[i], now[i + |before| - 1], top + i) {
      assert now[i + |before| - 1] == PregCopies(t, k, top)[i - 1];
    }
  }

  /** MInline::RenamePregs: preg `i` of the callee becomes preg `i + off` of the caller, with a
      number above all of the caller's. */
  method RenamePregs(caller: MIRPregTable, callee: MIRPregTable) returns (pregOld2new: map<nat, nat>)
    requires caller.Valid() && callee.Valid()
    modifies caller
    ensures caller.Valid() && callee.pregTable != []
    ensures PregsCopied(old(callee.pregTable), |old(callee.pregTable)| - 1, old(caller.maxPregNo),
                        old(caller.pregTable), caller.pregTable, pregOld2new)
    ensures |old(caller.pregTable)| >= 1
      && |caller.pregTable| == |old(caller.pregTable)| + |old(callee.pregTable)| - 1
      && (forall i :: 0 <= i < |old(caller.pregTable)| ==> caller.pregTable[i] == old(caller.pregTable)[i])
      && (forall i :: 1 <= i < |old(callee.pregTable)| ==>
            IsPregCopy(old(callee.pregTable)[i], caller.pregTable[i + |old(caller.pregTable)| - 1],
                       old(caller.maxPregNo) + i))
  {
    hide MIRPregTable.Valid, PregCopy, PregsCopied;
    EntriesAreThere(caller);
    EntriesAreThere(callee);
    ghost var t, before, top := callee.pregTable, caller.pregTable, caller.maxPregNo;
    var size := |callee.pregTable|;
    pregOld2new := map[];
    NoPregYet(t, top, before);
    var i := 1;
    while i < size
      invariant 1 <= i <= size == |t|
      invariant size <= |callee.pregTable| && callee.pregTable[..size] == t
      invariant caller.Valid() && caller.maxPregNo == top + i - 1
      invariant PregsCopied(t, i - 1, top, before, caller.pregTable, pregOld2new)
    {
      assert callee.pregTable[i] == callee.pregTable[..size][i];
      OneMorePreg(t, i - 1, top, before, caller.pregTable, pregOld2new);
      var idx := CopyPreg(caller, callee.pregTable[i].value);
      pregOld2new := pregOld2new[i := idx];
      i := i + 1;
    }
    CopiedPregs(t, size - 1, top, before, caller.pregTable, pregOld2new);
  }
}
