/** The session's register binding table, and the CSR discovery registers computed from it. */
module Bindings {
  import opened MailboxAbi
  import opened Prelude

  const MAX_BINDINGS: nat := 64

  /** A target is an opaque pointer; zero is null. */
  datatype Binding = Binding(space: u32, index: u64, target: nat, width: u32)

  datatype Key = Key(space: u32, index: u64)

  datatype Target = Target(pointer: nat, width: u32)

  function KeyOf(b: Binding): Key { Key(b.space, b.index) }

  /** The position of the first binding of a key at or after `i`, or the length of the table. */
  function FindFrom(table: seq<Binding>, k: Key, i: nat): (p: nat)
    requires i <= |table|
    ensures i <= p <= |table|
    decreases |table| - i
  {
    if i == |table| || KeyOf(table[i]) == k then i else FindFrom(table, k, i + 1)
  }

  predicate Acceptable(b: Binding) {
    b.target != 0 && b.width != 0 && b.width <= 64 && (b.space == ADDR_REG_DEBUG ==> b.index == DEBUG_REG_PC)
  }

  function Bound(table: seq<Binding>, b: Binding): (seq<Binding>, bool) {
    var p := FindFrom(table, KeyOf(b), 0);
    if !Acceptable(b) then (table, false)
    else if p < |table| then (table[p := b], true)
    else if |table| >= MAX_BINDINGS then (table, false)
    else (table + [b], true)
  }

  function CsrCount(table: seq<Binding>): nat {
    if table == [] then 0
    else CsrCount(table[..|table| - 1]) + if table[|table| - 1].space == ADDR_REG_CSR then 1 else 0
  }

  /** The CSR bound at an ordinal: `seen` CSR bindings have been passed before position `i`. */
  function CsrAt(table: seq<Binding>, ordinal: u32, i: nat, seen: nat): Option<u32>
    requires i <= |table|
    decreases |table| - i
  {
    if i == |table| then None
    else if table[i].space != ADDR_REG_CSR then CsrAt(table, ordinal, i + 1, seen)
    else if seen == ordinal then Some(table[i].index % W32)
    else CsrAt(table, ordinal, i + 1, seen + 1)
  }

  // ---- the table is a map, in first-bind order ---------------------------------------------------------------------------

  /** What a sequence of binds means: the keys in the order of their first bind, and their last targets. */
  datatype Meaning = Meaning(order: seq<Key>, last: map<Key, Target>)

  function Record(m: Meaning, b: Binding): (Meaning, bool) {
    if !Acceptable(b) then (m, false)
    else if KeyOf(b) in m.last then (m.(last := m.last[KeyOf(b) := Target(b.target, b.width)]), true)
    else if |m.order| >= MAX_BINDINGS then (m, false)
    else (Meaning(m.order + [KeyOf(b)], m.last[KeyOf(b) := Target(b.target, b.width)]), true)
  }

  function BindAll(table: seq<Binding>, binds: seq<Binding>): seq<Binding>
    decreases |binds|
  {
    if binds == [] then table else BindAll(Bound(table, binds[0]).0, binds[1..])
  }

  function RecordAll(m: Meaning, binds: seq<Binding>): Meaning
    decreases |binds|
  {
    if binds == [] then m else RecordAll(Record(m, binds[0]).0, binds[1..])
  }

  /** Distinct keys, at most 64, each with its meaning. */
  ghost predicate Represents(table: seq<Binding>, m: Meaning) {
    && |table| == |m.order| <= MAX_BINDINGS
    && (forall i | 0 <= i < |table| :: KeyOf(table[i]) == m.order[i])
    && (forall i, j | 0 <= i < j < |table| :: m.order[i] != m.order[j])
    && (forall i | 0 <= i < |table| :: m.order[i] in m.last && m.last[m.order[i]] == Target(table[i].target, table[i].width))
    && (forall k | k in m.last :: k in m.order)
  }

  lemma {:induction false} FindMeans(table: seq<Binding>, k: Key, i: nat)
    requires i <= |table|
    ensures var p := FindFrom(table, k, i);
            (p < |table| ==> KeyOf(table[p]) == k) && forall j | i <= j < p :: KeyOf(table[j]) != k
    decreases |table| - i
  {
    if i < |table| && KeyOf(table[i]) != k { FindMeans(table, k, i + 1); }
  }

  /** Lookup finds exactly the bound keys, with their last targets. */
  lemma LookupIsMap(table: seq<Binding>, m: Meaning, k: Key)
    requires Represents(table, m)
    ensures var p := FindFrom(table, k, 0);
            && (p < |table| <==> k in m.last)
            && (p < |table| ==> m.last[k] == Target(table[p].target, table[p].width))
  {
    FindMeans(table, k, 0);
  }

  lemma BindRecords(table: seq<Binding>, m: Meaning, b: Binding)
    requires Represents(table, m)
    ensures Represents(Bound(table, b).0, Record(m, b).0) && Bound(table, b).1 == Record(m, b).1
  {
    LookupIsMap(table, m, KeyOf(b));
    FindMeans(table, KeyOf(b), 0);
  }

  /** Over every sequence of binds the table is the map of last targets, in first-bind order, with at most 64 keys. */
  lemma {:induction false} TableIsMap(table: seq<Binding>, m: Meaning, binds: seq<Binding>)
    requires Represents(table, m)
    ensures Represents(BindAll(table, binds), RecordAll(m, binds))
    decreases |binds|
  {
    if binds != [] {
      BindRecords(table, m, binds[0]);
      TableIsMap(Bound(table, binds[0]).0, Record(m, binds[0]).0, binds[1..]);
    }
  }

  // ---- the CSR listing -----------------------------------------------------------------------------------------------------

  /** The CSR numbers among the keys, in order. */
  function CsrKeys(order: seq<Key>): seq<u64> {
    if order == [] then []
    else (if order[0].space == ADDR_REG_CSR then [order[0].index] else []) + CsrKeys(order[1..])
  }

  function Keys(table: seq<Binding>): seq<Key> {
    if table == [] then [] else [KeyOf(table[0])] + Keys(table[1..])
  }

  lemma {:induction false} CsrAtIsListing(table: seq<Binding>, ordinal: u32, i: nat, seen: nat)
    requires i <= |table| && seen <= ordinal
    ensures var csrs := CsrKeys(Keys(table[i..]));
            CsrAt(table, ordinal, i, seen) ==
            if ordinal - seen < |csrs| then Some(csrs[ordinal - seen] % W32) else None
    decreases |table| - i
  {
    if i < |table| {
      assert table[i..][1..] == table[i + 1..] && table[i..][0] == table[i];
      assert Keys(table[i..])[0] == KeyOf(table[i]) && Keys(table[i..])[1..] == Keys(table[i + 1..]);
      if table[i].space != ADDR_REG_CSR {
        CsrAtIsListing(table, ordinal, i + 1, seen);
      } else if seen != ordinal {
        CsrAtIsListing(table, ordinal, i + 1, seen + 1);
      }
    }
  }

  lemma {:induction false} KeysLength(table: seq<Binding>)
    ensures |Keys(table)| == |table| && forall i | 0 <= i < |table| :: Keys(table)[i] == KeyOf(table[i])
  {
    if table != [] { KeysLength(table[1..]); }
  }

  lemma {:induction false} CsrKeysAppend(a: seq<Key>, b: seq<Key>)
    ensures CsrKeys(a + b) == CsrKeys(a) + CsrKeys(b)
  {
    if a == [] {
      assert a + b == b;
    } else {
      assert (a + b)[1..] == a[1..] + b && (a + b)[0] == a[0];
      CsrKeysAppend(a[1..], b);
      var first := if a[0].space == ADDR_REG_CSR then [a[0].index] else [];
      assert first + (CsrKeys(a[1..]) + CsrKeys(b)) == first + CsrKeys(a[1..]) + CsrKeys(b);
    }
  }

  lemma {:induction false} KeysAppend(a: seq<Binding>, b: seq<Binding>)
    ensures Keys(a + b) == Keys(a) + Keys(b)
  {
    if a == [] {
      assert a + b == b;
    } else {
      assert (a + b)[1..] == a[1..] + b;
      KeysAppend(a[1..], b);
    }
  }

  lemma {:induction false} CsrCountIsListing(table: seq<Binding>)
    ensures CsrCount(table) == |CsrKeys(Keys(table))|
  {
    if table != [] {
      var front, last := table[..|table| - 1], table[|table| - 1];
      CsrCountIsListing(front);
      assert table == front + [last] && [last][1..] == [];
      KeysAppend(front, [last]);
      CsrKeysAppend(Keys(front), Keys([last]));
      assert Keys([last]) == [KeyOf(last)] && [KeyOf(last)][1..] == [];
      assert CsrKeys([KeyOf(last)]) == if last.space == ADDR_REG_CSR then [last.index] else [];
    }
  }

  /**
   * After any sequence of binds the ordinals below the bound-CSR count list exactly the CSR keys in first-bind order,
   * truncated to 32 bits, and every later ordinal fails.
   */
  lemma CsrListingIsIndex(binds: seq<Binding>, ordinal: u32)
    ensures var table := BindAll([], binds);
            var csrs := CsrKeys(RecordAll(Meaning([], map[]), binds).order);
            && CsrCount(table) == |csrs|
            && CsrAt(table, ordinal, 0, 0) == if ordinal < |csrs| then Some(csrs[ordinal] % W32) else None
  {
    var table := BindAll([], binds);
    TableIsMap([], Meaning([], map[]), binds);
    KeysLength(table);
    assert Keys(table) == RecordAll(Meaning([], map[]), binds).order;
    CsrCountIsListing(table);
    assert table[0..] == table;
    CsrAtIsListing(table, ordinal, 0, 0);
  }

  // ---- discovery registers -------------------------------------------------------------------------------------------------

  const KNOWN_CSRS: seq<u32> := [0x300, 0x301, 0x304, 0x305, 0x340, 0x341, 0x342, 0x343, 0x344, 0x7B0, 0x7B1, 0x7B2, 0x7B3]
  const KNOWN_BASE: int := 32
  const BOUND_BASE: int := 64

  function KnownProfile(profile: u32): u32 { if profile == 0 || profile == 1 then profile else 0 }

  /** `SessionReadDiscoveryDebugReg`: the counts, then the known window, then the bound window. */
  function ReadDiscovery(table: seq<Binding>, profile: u32, reg: u64): Option<u64>
    requires |table| <= MAX_BINDINGS
  {
    CsrCountIsSmall(table);
    if reg == 13 then Some(|KNOWN_CSRS|)
    else if reg == 14 then Some(CsrCount(table))
    else if reg == 15 then Some(KnownProfile(profile))
    else if reg >= KNOWN_BASE && (reg - KNOWN_BASE) % W32 < |KNOWN_CSRS| then Some(KNOWN_CSRS[(reg - KNOWN_BASE) % W32])
    else if reg >= BOUND_BASE then
      match CsrAt(table, (reg - BOUND_BASE) % W32, 0, 0) { case Some(csr) => Some(csr) case None => None }
    else None
  }

  lemma {:induction false} CsrCountIsSmall(table: seq<Binding>)
    ensures CsrCount(table) <= |table|
  {
    if table != [] { CsrCountIsSmall(table[..|table| - 1]); }
  }

  /** The windows, as a reader of the register map understands them: 32..44 known, 64.. bound, nothing else from 16 up. */
  function Windows(table: seq<Binding>, reg: u64): Option<u64> {
    if KNOWN_BASE <= reg < KNOWN_BASE + |KNOWN_CSRS| then Some(KNOWN_CSRS[reg - KNOWN_BASE])
    else if BOUND_BASE <= reg < BOUND_BASE + |CsrKeys(Keys(table))| then
      Some(CsrKeys(Keys(table))[reg - BOUND_BASE] % W32)
    else None
  }

  /** The three counts before the windows: known CSRs, bound CSRs, and the profile, where only 0 and 1 are known. */
  lemma DiscoveryCounts(binds: seq<Binding>, profile: u32)
    ensures var table := BindAll([], binds);
            && |table| <= MAX_BINDINGS
            && ReadDiscovery(table, profile, 13) == Some(|KNOWN_CSRS|)
            && ReadDiscovery(table, profile, 14) == Some(|CsrKeys(RecordAll(Meaning([], map[]), binds).order)|)
            && ReadDiscovery(table, profile, 15) == Some(if profile == 1 then 1 else 0)
            && forall reg: u64 | reg < 13 || 16 <= reg < KNOWN_BASE :: ReadDiscovery(table, profile, reg) == None
  {
    hide BindAll, RecordAll, CsrKeys, CsrCount, CsrAt;
    TableIsMap([], Meaning([], map[]), binds);
    CsrListingIsIndex(binds, 0);
  }

  /** The 32-bit ordinal of a register index past `2^32` falls into no window again. */
  predicate MissesWindows(table: seq<Binding>, reg: u64)
    requires reg >= BOUND_BASE
  {
    (reg - KNOWN_BASE) % W32 >= |KNOWN_CSRS| && (reg - BOUND_BASE) % W32 >= CsrCount(table)
  }

  /**
   * A register from 16 up answers as the windows say exactly when it lies below `2^32 + 32`, or when its ordinal,
   * truncated to 32 bits, misses both windows. Below that bound the windows never answer for each other.
   */
  lemma WindowsAreSeparate(table: seq<Binding>, profile: u32, reg: u64)
    requires |table| <= MAX_BINDINGS && reg >= 16
    ensures ReadDiscovery(table, profile, reg) == Windows(table, reg) <==> reg < W32 + KNOWN_BASE || MissesWindows(table, reg)
  {
    assert table[0..] == table;
    CsrCountIsSmall(table);
    CsrCountIsListing(table);
    if BOUND_BASE <= reg { CsrAtIsListing(table, (reg - BOUND_BASE) % W32, 0, 0); }
  }

  // ---- the table object ----------------------------------------------------------------------------------------------------

  class BindingTable {
    const entries: array<Binding>
    var count: u32

    ghost predicate Valid()
      reads this
    {
      entries.Length == MAX_BINDINGS && count <= MAX_BINDINGS
    }

    ghost function Table(): seq<Binding>
      requires Valid()
      reads this, entries
    {
      entries[..count]
    }

    constructor ()
      ensures Valid() && Table() == [] && fresh(entries)
    {
      entries := new Binding[MAX_BINDINGS](_ => Binding(ADDR_NONE, 0, 0, 0));
      count := 0;
    }

    /** `SessionFindRegBinding`: the position of the key, or `count`. */
    method Find(space: u32, index: u64) returns (p: u32)
      requires Valid()
      ensures p == FindFrom(Table(), Key(space, index), 0)
    {
      p := 0;
      while p < count
        invariant p <= count
        invariant FindFrom(Table(), Key(space, index), p) == FindFrom(Table(), Key(space, index), 0)
      {
        if entries[p].space == space && entries[p].index == index { return; }
        p := p + 1;
      }
    }

    /** `SessionBindRegOpaque` */
    method Bind(space: u32, index: u64, target: nat, width: u32) returns (ok: bool)
      requires Valid()
      modifies this, entries
      ensures Valid()
      ensures (Table(), ok) == Bound(old(Table()), Binding(space, index, target, width))
    {
      if target == 0 || width == 0 || width > 64 { return false; }
      if space == ADDR_REG_DEBUG && index != DEBUG_REG_PC { return false; }
      var p := Find(space, index);
      if p == count {
        if count >= MAX_BINDINGS { return false; }
        count := count + 1;
      }
      entries[p] := Binding(space, index, target, width);
      assert Table() == if p < old(count) then old(Table())[p := Binding(space, index, target, width)]
                        else old(Table()) + [Binding(space, index, target, width)];
      return true;
    }

    method BoundCsrCount() returns (n: u32)
      requires Valid()
      ensures n == CsrCount(Table())
    {
      n := 0;
      for i := 0 to count
        invariant n == CsrCount(entries[..i]) <= i
      {
        assert entries[..i + 1][..i] == entries[..i];
        if entries[i].space == ADDR_REG_CSR { n := n + 1; }
      }
    }

    method BoundCsrIndexAt(ordinal: u32) returns (r: Option<u32>)
      requires Valid()
      ensures r == CsrAt(Table(), ordinal, 0, 0)
    {
      var seen: u32 := 0;
      for i := 0 to count
        invariant seen <= i
        invariant CsrAt(Table(), ordinal, i, seen) == CsrAt(Table(), ordinal, 0, 0)
      {
        if entries[i].space != ADDR_REG_CSR { continue; }
        if seen == ordinal { return Some(entries[i].index % W32); }
        seen := seen + 1;
      }
      return None;
    }
  }
}
