/**
 * The log level table: a default level, and a list of per-module levels
 * kept in strictly ascending strcmp order of the module names. Whether the
 * global log lock is taken and whether an allocation succeeds are outside
 * the table and come in as parameters.
 */
module Log {
  import opened Wire

  /** avs_log_level_t. */
  const Trace: int := 0
  const Debug: int := 1
  const Info: int := 2
  const Warning: int := 3
  const Error: int := 4
  const Quiet: int := 5

  /** The characters of a module name, up to and without its terminating NUL. */
  type Name = s: Bytes | 0 !in s

  /**
   * strcmp on two module names: the first differing unsigned byte decides,
   * and a name that is a proper prefix of the other compares less (its NUL
   * meets a non-zero byte). Only the sign of the result is modelled.
   */
  function StrCmp(a: Name, b: Name): (r: int)
    ensures -1 <= r <= 1
  {
    if a == [] then (if b == [] then 0 else -1)
    else if b == [] then 1
    else if a[0] < b[0] then -1
    else if a[0] > b[0] then 1
    else StrCmp(a[1..], b[1..])
  }

  /** Two names compare equal exactly when they are the same name. */
  lemma {:induction false} StrCmpEqual(a: Name, b: Name)
    ensures StrCmp(a, b) == 0 <==> a == b
  {
    if a != [] && b != [] && a[0] == b[0] {
      StrCmpEqual(a[1..], b[1..]);
      assert a == [a[0]] + a[1..] && b == [b[0]] + b[1..];
    }
  }

  /** Swapping the names flips the sign. */
  lemma {:induction false} StrCmpFlip(a: Name, b: Name)
    ensures StrCmp(b, a) == -StrCmp(a, b)
  {
    if a != [] && b != [] && a[0] == b[0] {
      StrCmpFlip(a[1..], b[1..]);
    }
  }

  /** Comparing less is transitive. */
  lemma {:induction false} StrCmpLess(a: Name, b: Name, c: Name)
    requires StrCmp(a, b) < 0 && StrCmp(b, c) < 0
    ensures StrCmp(a, c) < 0
  {
    if a != [] && b != [] && c != [] && a[0] == b[0] && b[0] == c[0] {
      StrCmpLess(a[1..], b[1..], c[1..]);
    }
  }

  /** module_level_t: a module name and its level. */
  datatype Entry = Entry(name: Name, level: int)

  /** The module names strictly ascend, so no name occurs twice. */
  ghost predicate Ascending(entries: seq<Entry>) {
    forall i, j :: 0 <= i < j < |entries| ==> StrCmp(entries[i].name, entries[j].name) < 0
  }

  /** The table holds this module with this level. */
  ghost predicate Has(entries: seq<Entry>, m: Name, level: int) {
    exists i :: 0 <= i < |entries| && entries[i] == Entry(m, level)
  }

  /** Where the walk of level_for stops: at the first entry whose name compares greater than or equal to m. */
  function Position(entries: seq<Entry>, m: Name): (k: nat)
    ensures k <= |entries|
  {
    if entries == [] || StrCmp(entries[0].name, m) >= 0 then 0
    else 1 + Position(entries[1..], m)
  }

  /** The walk passes exactly the entries that compare less than m. */
  lemma {:induction false} PositionSplits(entries: seq<Entry>, m: Name)
    ensures var k := Position(entries, m);
      && (forall i :: 0 <= i < k ==> StrCmp(entries[i].name, m) < 0)
      && (k < |entries| ==> StrCmp(entries[k].name, m) >= 0)
  {
    if entries != [] && StrCmp(entries[0].name, m) < 0 {
      PositionSplits(entries[1..], m);
      forall i | 1 <= i < Position(entries, m) ensures StrCmp(entries[i].name, m) < 0 {
        assert entries[i] == entries[1..][i - 1];
      }
    }
  }

  /** The level the table holds for m, found where the walk stops. */
  function Lookup(entries: seq<Entry>, m: Name): Option<int> {
    var k := Position(entries, m);
    if k < |entries| && entries[k].name == m then Some(entries[k].level) else None
  }

  /** In an ascending table the walk finds exactly the entries the table holds. */
  lemma LookupHas(entries: seq<Entry>, m: Name, level: int)
    requires Ascending(entries)
    ensures Lookup(entries, m) == Some(level) <==> Has(entries, m, level)
  {
    if Has(entries, m, level) {
      var i :| 0 <= i < |entries| && entries[i] == Entry(m, level);
      StrCmpEqual(m, m);
      PositionSplits(entries, m);
      assert i == Position(entries, m);
    }
  }

  /** Two ascending tables that hold the same levels for m give the same lookup for m. */
  lemma LookupSame(e1: seq<Entry>, e2: seq<Entry>, m: Name)
    requires Ascending(e1) && Ascending(e2)
    requires forall l :: Has(e1, m, l) <==> Has(e2, m, l)
    ensures Lookup(e1, m) == Lookup(e2, m)
  {
    if Lookup(e1, m).Some? {
      LookupHas(e1, m, Lookup(e1, m).value);
      LookupHas(e2, m, Lookup(e1, m).value);
    } else if Lookup(e2, m).Some? {
      LookupHas(e2, m, Lookup(e2, m).value);
      LookupHas(e1, m, Lookup(e2, m).value);
    }
  }

  /**
   * The table after set_log_level for module m: the entry of m takes the
   * level, or, when m has none, a new entry is inserted where the walk
   * stopped.
   */
  function Assign(entries: seq<Entry>, m: Name, level: int): seq<Entry> {
    var k := Position(entries, m);
    if k < |entries| && entries[k].name == m then entries[k := Entry(m, level)]
    else entries[..k] + [Entry(m, level)] + entries[k..]
  }

  /**
   * The entries of an assignment, index by index: the assigned entry stands
   * where the walk stopped; the others are those of the table, shifted by
   * one past that point when the entry is new.
   */
  lemma AssignShape(entries: seq<Entry>, m: Name, level: int)
    ensures var k := Position(entries, m);
            var r := Assign(entries, m, level);
      && k < |r| && r[k] == Entry(m, level)
      && (Lookup(entries, m).Some? ==>
            |r| == |entries| && forall i :: 0 <= i < |r| && i != k ==> r[i] == entries[i])
      && (Lookup(entries, m).None? ==>
            && |r| == |entries| + 1
            && (forall i :: 0 <= i < k ==> r[i] == entries[i])
            && (forall i :: k < i < |r| ==> r[i] == entries[i - 1]))
  {
    var k := Position(entries, m);
    if Lookup(entries, m).None? {
      var r := entries[..k] + [Entry(m, level)] + entries[k..];
      assert Assign(entries, m, level) == r;
      forall i | k < i < |r| ensures r[i] == entries[i - 1] {
        assert r[i] == entries[k..][i - k - 1];
      }
    }
  }

  /** Assigning the level a module already holds changes nothing. */
  lemma AssignHeld(entries: seq<Entry>, m: Name)
    requires Lookup(entries, m).Some?
    ensures Assign(entries, m, Lookup(entries, m).value) == entries
  {
    var r := Assign(entries, m, Lookup(entries, m).value);
    AssignShape(entries, m, Lookup(entries, m).value);
    assert forall i | 0 <= i < |r| :: r[i] == entries[i];
  }

  /** Overwriting the level of the entry an assignment made is assigning the new level. */
  lemma AssignAgain(entries: seq<Entry>, m: Name, l1: int, l2: int)
    ensures Position(entries, m) < |Assign(entries, m, l1)|
    ensures Assign(entries, m, l1)[Position(entries, m)].name == m
    ensures Assign(entries, m, l1)[Position(entries, m) := Entry(m, l2)] == Assign(entries, m, l2)
  {
    var k := Position(entries, m);
    var r1 := Assign(entries, m, l1);
    var r2 := Assign(entries, m, l2);
    AssignShape(entries, m, l1);
    AssignShape(entries, m, l2);
    var r := r1[k := Entry(m, l2)];
    assert forall i | 0 <= i < |r| :: r[i] == r2[i];
  }

  /** Assigning a level keeps the names strictly ascending. */
  lemma AssignAscending(entries: seq<Entry>, m: Name, level: int)
    requires Ascending(entries)
    ensures Ascending(Assign(entries, m, level))
  {
    var k := Position(entries, m);
    var r := Assign(entries, m, level);
    AssignShape(entries, m, level);
    if Lookup(entries, m).None? {
      PositionSplits(entries, m);
      forall i, j | 0 <= i < j < |r| ensures StrCmp(r[i].name, r[j].name) < 0 {
        if i == k {
          StrCmpEqual(entries[k].name, m);
          StrCmpFlip(m, entries[k].name);
          if j - 1 > k {
            StrCmpLess(m, entries[k].name, entries[j - 1].name);
          }
        }
      }
    }
  }

  /** Assigning a level to m leaves the entries of every other module as they were. */
  lemma AssignKeeps(entries: seq<Entry>, m: Name, level: int, m': Name, l: int)
    requires m' != m
    ensures Has(Assign(entries, m, level), m', l) <==> Has(entries, m', l)
  {
    var k := Position(entries, m);
    var r := Assign(entries, m, level);
    AssignShape(entries, m, level);
    var found := Lookup(entries, m).Some?;
    if Has(r, m', l) {
      var i :| 0 <= i < |r| && r[i] == Entry(m', l);
      var j := if found || i < k then i else i - 1;
      assert entries[j] == r[i];
    }
    if Has(entries, m', l) {
      var i :| 0 <= i < |entries| && entries[i] == Entry(m', l);
      var j := if found || i < k then i else i + 1;
      assert r[j] == entries[i];
    }
  }

  /** Assigning a level to m changes the level held for m and for no other module. */
  lemma AssignLookup(entries: seq<Entry>, m: Name, level: int, m': Name)
    requires Ascending(entries)
    ensures Lookup(Assign(entries, m, level), m') == if m' == m then Some(level) else Lookup(entries, m')
  {
    var r := Assign(entries, m, level);
    AssignAscending(entries, m, level);
    AssignShape(entries, m, level);
    if m' == m {
      LookupHas(r, m, level);
    } else {
      forall l ensures Has(r, m', l) <==> Has(entries, m', l) {
        AssignKeeps(entries, m, level, m', l);
      }
      LookupSame(r, entries, m');
    }
  }

  /** The level that applies to a module: its own entry, else the default; a null module always gets the default. */
  function EffectiveLevel(defaultLevel: int, entries: seq<Entry>, name: Option<Name>): int {
    if name.None? then defaultLevel
    else match Lookup(entries, name.value)
      case Some(level) => level
      case None => defaultLevel
  }

  /** What level_for hands back: the default's slot, the slot of an entry, or nothing when allocation failed. */
  datatype Slot = DefaultSlot | EntrySlot(index: nat) | NoSlot

  /** level_as_string: the five named levels, and "WTF" for anything else. */
  function LevelAsString(level: int): (s: string)
    ensures s == "WTF" <==> level < Trace || level > Error
  {
    if level == Trace then "TRACE"
    else if level == Debug then "DEBUG"
    else if level == Info then "INFO"
    else if level == Warning then "WARNING"
    else if level == Error then "ERROR"
    else "WTF"
  }

  /** Distinct named levels have distinct names. */
  lemma LevelNamesDistinct(a: int, b: int)
    requires Trace <= a <= Error && Trace <= b <= Error && a != b
    ensures LevelAsString(a) != LevelAsString(b)
  {
    assert LevelAsString(a)[0] != LevelAsString(b)[0];
  }

  /** The global log state: the default level and the per-module levels. */
  class LogState {
    var defaultLevel: int
    var modules: seq<Entry>

    ghost predicate Valid()
      reads this
    {
      Ascending(modules)
    }

    /** The initial state: INFO by default and no module entries. */
    constructor ()
      ensures Valid() && defaultLevel == Info && modules == []
    {
      defaultLevel := Info;
      modules := [];
    }

    /** The walk of level_for: the first entry whose name compares greater than or equal to m, and that comparison. */
    method Search(m: Name) returns (k: nat, cmp: int)
      ensures k == Position(modules, m)
      ensures cmp == 0 <==> k < |modules| && modules[k].name == m
    {
      k, cmp := 0, 1;
      while k < |modules|
        invariant k <= |modules| && cmp != 0
        invariant Position(modules, m) == k + Position(modules[k..], m)
      {
        cmp := StrCmp(modules[k].name, m);
        if cmp >= 0 {
          StrCmpEqual(modules[k].name, m);
          return;
        }
        assert modules[k..][1..] == modules[k + 1..];
        k := k + 1;
      }
    }

    /**
     * level_for: the slot of the module's level. A null module, or a module
     * without an entry when create is not set, gets the default's slot. With
     * create set, a missing module gets a new entry holding the current
     * default level, inserted where the walk stopped, unless allocating it
     * fails.
     */
    method LevelFor(name: Option<Name>, create: bool, memory: bool) returns (slot: Slot)
      requires Valid()
      modifies this
      ensures Valid() && defaultLevel == old(defaultLevel)
      ensures name.None? ==> slot == DefaultSlot && modules == old(modules)
      ensures name.Some? ==>
        var m := name.value;
        var k := Position(old(modules), m);
        && (Lookup(old(modules), m).Some? ==> modules == old(modules) && slot == EntrySlot(k) && k < |modules|)
        && (Lookup(old(modules), m).None? && !create ==> modules == old(modules) && slot == DefaultSlot)
        && (Lookup(old(modules), m).None? && create && !memory ==> modules == old(modules) && slot == NoSlot)
        && (Lookup(old(modules), m).None? && create && memory ==>
              && modules == Assign(old(modules), m, defaultLevel)
              && slot == EntrySlot(k) && k < |modules| && modules[k] == Entry(m, defaultLevel))
    {
      if name.None? {
        return DefaultSlot;
      }
      var m := name.value;
      var k, cmp := Search(m);
      if cmp == 0 {
        return EntrySlot(k);
      }
      if !create {
        return DefaultSlot;
      }
      if !memory {
        return NoSlot;
      }
      AssignAscending(modules, m, defaultLevel);
      modules := modules[..k] + [Entry(m, defaultLevel)] + modules[k..];
      slot := EntrySlot(k);
    }

    /**
     * set_log_level_unlocked: the level goes into the slot level_for
     * creates; -1, with nothing changed, when there is none.
     */
    method SetLevelUnlocked(name: Option<Name>, level: int, memory: bool) returns (r: int)
      requires Valid()
      modifies this
      ensures Valid()
      ensures r == 0 || r == -1
      ensures r == -1 <==> name.Some? && Lookup(old(modules), name.value).None? && !memory
      ensures r == -1 ==> modules == old(modules) && defaultLevel == old(defaultLevel)
      ensures r == 0 && name.None? ==> defaultLevel == level && modules == old(modules)
      ensures r == 0 && name.Some? ==>
        defaultLevel == old(defaultLevel) && modules == Assign(old(modules), name.value, level)
    {
      var slot := LevelFor(name, true, memory);
      match slot
      case NoSlot =>
        r := -1;
      case DefaultSlot =>
        defaultLevel := level;
        r := 0;
      case EntrySlot(k) =>
        ghost var m := name.value;
        ghost var held := if Lookup(old(modules), m).Some? then Lookup(old(modules), m).value else defaultLevel;
        if Lookup(old(modules), m).Some? {
          AssignHeld(old(modules), m);
        }
        AssignAgain(old(modules), m, held, level);
        AssignAscending(old(modules), m, level);
        modules := modules[k := modules[k].(level := level)];
        r := 0;
    }

    /** avs_log_set_level__: -1 when the lock cannot be taken, and set_log_level_unlocked under it otherwise. */
    method SetLevel(name: Option<Name>, level: int, lockOk: bool, memory: bool) returns (r: int)
      requires Valid()
      modifies this
      ensures Valid()
      ensures !lockOk ==> r == -1 && modules == old(modules) && defaultLevel == old(defaultLevel)
      ensures lockOk ==> (r == -1 <==> name.Some? && Lookup(old(modules), name.value).None? && !memory)
      ensures r == -1 ==> modules == old(modules) && defaultLevel == old(defaultLevel)
      ensures r == 0 && name.None? ==> defaultLevel == level && modules == old(modules)
      ensures r == 0 && name.Some? ==>
        defaultLevel == old(defaultLevel) && modules == Assign(old(modules), name.value, level)
    {
      if !lockOk {
        return -1;
      }
      r := SetLevelUnlocked(name, level, memory);
    }

    /** avs_log_reset: the module entries are dropped and the default goes back to INFO. */
    method Reset(lockOk: bool)
      requires Valid()
      modifies this
      ensures Valid()
      ensures lockOk ==> modules == [] && defaultLevel == Info
      ensures !lockOk ==> modules == old(modules) && defaultLevel == old(defaultLevel)
    {
      if !lockOk {
        return;
      }
      modules := [];
      var _ := SetLevelUnlocked(None, Info, true);
    }

    /**
     * avs_log_should_log__: QUIET and anything above it always pass, as
     * does everything when the lock cannot be taken; otherwise a level
     * passes when it reaches the level that applies to the module.
     */
    method ShouldLog(level: int, name: Option<Name>, lockOk: bool) returns (r: bool)
      requires Valid()
      modifies this
      ensures Valid() && modules == old(modules) && defaultLevel == old(defaultLevel)
      ensures r <==> level >= Quiet || !lockOk || level >= EffectiveLevel(defaultLevel, modules, name)
    {
      if level >= Quiet || !lockOk {
        return true;
      }
      var slot := LevelFor(name, false, false);
      var threshold := if slot.EntrySlot? then modules[slot.index].level else defaultLevel;
      r := level >= threshold;
    }
  }

  /**
   * Setting a module's level makes exactly that module log from that
   * level on; every other module keeps the level that applied to it.
   */
  lemma SetLevelEffect(defaultLevel: int, entries: seq<Entry>, m: Name, level: int, m': Name)
    requires Ascending(entries)
    ensures EffectiveLevel(defaultLevel, Assign(entries, m, level), Some(m')) ==
            if m' == m then level else EffectiveLevel(defaultLevel, entries, Some(m'))
  {
    AssignLookup(entries, m, level, m');
  }

  /**
   * Setting the default level changes what applies to modules without an
   * entry of their own, and leaves modules with one as they were.
   */
  lemma SetDefaultEffect(defaultLevel: int, entries: seq<Entry>, level: int, m: Name)
    ensures EffectiveLevel(level, entries, Some(m)) ==
            if Lookup(entries, m).None? then level else EffectiveLevel(defaultLevel, entries, Some(m))
  {
  }
}
