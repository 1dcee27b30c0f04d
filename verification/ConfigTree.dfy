/** The in-place code of common/map.go: the loops of inheritObj and processMapTree, which
    walk Go maps in an order nobody knows, against the functions of ConfigInheritance. */
module ConfigTree {
  import opened ConfigInheritance
  import opened ConfigOrder
  import opened Counting
  import opened Outcomes

  /** Every object learns the name of its entry before any link is resolved. */
  function Named(level: Level): Level {
    map n | n in level ::
      if level[n].Object? && n != NAME then Object(level[n].attrs[NAME := Str(n)]) else level[n]
  }

  lemma NamedIsRanked(level: Level, rank: map<string, nat>)
    requires Ranked(level, rank)
    ensures Ranked(Named(level), rank)
  {
  }

  /** The link of the level itself, at the top of the tree, where there is no enclosing level
      to look names up in: it has to name an object of the level that has no link to follow.
      The attributes of that object become entries of the level, which keeps its own. */
  function OwnLink(level: Level): Result<Level> {
    if BASE !in level then Returned(level)
    else if level[BASE].Object? || !level[BASE].value.Str? || !IsObject(level, level[BASE].value.s) then Panicked
    else
      var attrs := level[level[BASE].value.s].attrs;
      if BASE in attrs && attrs[BASE] != Str("") then Panicked
      else Returned((map k | k in attrs :: Leaf(attrs[k])) + level - {BASE})
  }

  /** The name of the object that the level itself inherits from. */
  predicate LevelInherits(level: Level, b: string) {
    BASE in level && level[BASE] == Leaf(Str(b)) && IsObject(level, b)
  }

  /** What a call keeps of a level. An object loses its link, keeps every other attribute it
      had and carries the name of its own entry, whatever it inherits; the object called by
      the key of names gets no name. */
  ghost predicate ObjectKept(before: Level, after: Level, n: string)
    requires IsObject(before, n)
  {
    && IsObject(after, n)
    && (n != NAME ==> BASE !in after[n].attrs && NAME in after[n].attrs && after[n].attrs[NAME] == Str(n))
    && forall k | k in before[n].attrs && k != BASE && (k != NAME || n == NAME) ::
      k in after[n].attrs && after[n].attrs[k] == before[n].attrs[k]
  }

  /** Plain values stay, but for the link of the level, and what is new is a plain value that
      the object it names has: its attributes and its name. */
  ghost predicate EntriesKept(before: Level, after: Level) {
    && BASE !in after
    && (forall n | n in before && n != BASE && before[n].Leaf? :: n in after && after[n] == before[n])
    && (forall n | n in after :: n in before || exists b :: LevelGains(before, b, n, after[n]))
    && (forall b, n | LevelInherits(before, b) && n != BASE && n !in before
          && (n in before[b].attrs || (n == NAME && b != NAME)) :: n in after)
  }

  ghost predicate LevelGains(before: Level, b: string, n: string, e: Entry) {
    && LevelInherits(before, b) && n != BASE
    && if n == NAME then e == Leaf(Str(b)) else n in before[b].attrs && e == Leaf(before[b].attrs[n])
  }

  ghost predicate Settled(before: Level, after: Level) {
    EntriesKept(before, after) && forall n | IsObject(before, n) :: ObjectKept(before, after, n)
  }

  /** Own attributes win over those of any base. */
  lemma OwnWins(level: Level, rank: map<string, nat>, n: string, k: string)
    requires Ranked(level, rank) && IsObject(level, n) && k in Own(level, n)
    ensures k in Effective(level, rank, n) && Effective(level, rank, n)[k] == level[n].attrs[k]
    ensures k in Late(level, rank, n) && Late(level, rank, n)[k] == level[n].attrs[k]
  {
  }

  lemma ReworkKeeps(level: Level, rank: map<string, nat>, next: Level, n: string)
    requires Ranked(level, rank) && Reworked(level, rank, next) && IsObject(level, n)
    ensures IsObject(next, n)
    ensures forall k | k in Own(level, n) :: k in next[n].attrs && next[n].attrs[k] == level[n].attrs[k]
  {
    forall k | k in Own(level, n)
      ensures k in next[n].attrs && next[n].attrs[k] == level[n].attrs[k]
    {
      OwnWins(level, rank, n, k);
    }
  }

  lemma StartKeepsEntries(level: Level, rank: map<string, nat>, start: Level)
    requires Ranked(level, rank) && OwnLink(Named(level)) == Returned(start)
    ensures EntriesKept(level, start)
  {
    if BASE in level {
      var b := level[BASE].value.s;
      assert LevelInherits(level, b);
      forall n | n in start && n !in level
        ensures LevelGains(level, b, n, start[n])
      {
      }
    }
  }

  lemma RunSettles(level: Level, rank: map<string, nat>, start: Level, order: seq<string>, end: Level)
    requires Ranked(level, rank) && Ranked(start, rank) && OwnLink(Named(level)) == Returned(start)
    requires CoversBut(start, order, NAME) && ProcessAll(start, rank, order) == Returned(end)
    ensures Settled(level, end)
  {
    StartKeepsEntries(level, rank, start);
    RunReworks(start, rank, start, order);
    EntriesStay(level, rank, start, end);
    forall n | IsObject(level, n)
      ensures ObjectKept(level, end, n)
    {
      ObjectSettles(level, rank, start, end, n);
    }
  }

  lemma EntriesStay(level: Level, rank: map<string, nat>, start: Level, end: Level)
    requires Ranked(start, rank) && EntriesKept(level, start) && Reworked(start, rank, end)
    requires forall n | IsObject(start, n) :: n in level
    ensures EntriesKept(level, end)
  {
    forall n | n in end
      ensures n in level || exists b :: LevelGains(level, b, n, end[n])
    {
      assert end[n] == start[n] || IsObject(start, n);
    }
  }

  lemma ObjectSettles(level: Level, rank: map<string, nat>, start: Level, end: Level, n: string)
    requires Ranked(level, rank) && Ranked(start, rank) && OwnLink(Named(level)) == Returned(start)
    requires Reworked(start, rank, end) && IsObject(level, n) && (n != NAME ==> !Linked(end, n))
    ensures ObjectKept(level, end, n)
  {
    NamedIsRanked(level, rank);
    OwnLinkKeepsObjects(Named(level), rank);
    ReworkKeeps(start, rank, end, n);
  }

  lemma OwnLinkKeepsObjects(level: Level, rank: map<string, nat>)
    requires Ranked(level, rank) && OwnLink(level).Returned?
    ensures Ranked(OwnLink(level).value, rank)
    ensures forall n | n in level && n != BASE :: n in OwnLink(level).value && OwnLink(level).value[n] == level[n]
    ensures forall n :: IsObject(OwnLink(level).value, n) <==> IsObject(level, n)
  {
    var next := OwnLink(level).value;
    assert forall n, b | NamesBase(next, n, b) :: NamesBase(level, n, b);
  }

  lemma InheritKeepsObjects(level: Level, rank: map<string, nat>, base: Option<string>, m: string)
    requires Ranked(level, rank) && IsObject(level, m)
    requires base.Some? ==> IsObject(level, base.value) && rank[base.value] < rank[m]
    ensures var r := Inherit(level, rank, base, m);
      r.Returned? ==> forall n :: IsObject(level, n) ==> IsObject(r.value, n)
  {
    InheritMeaning(level, rank, base, m);
  }

  lemma ProcessAllSnoc(level: Level, rank: map<string, nat>, order: seq<string>, n: string)
    requires Ranked(level, rank) && IsObject(level, n) && forall x | x in order :: IsObject(level, x)
    requires ProcessAll(level, rank, order).Returned?
    ensures var mid := ProcessAll(level, rank, order).value;
      && Ranked(mid, rank) && (forall x :: IsObject(mid, x) <==> IsObject(level, x))
      && (forall x | x in order + [n] :: IsObject(level, x))
      && ProcessAll(level, rank, order + [n]) == ProcessOne(mid, rank, n)
  {
    RunReworks(level, rank, level, order);
    ReworkedIsRanked(level, rank, ProcessAll(level, rank, order).value);
    ProcessAllConcat(level, rank, order, [n]);
    assert [n][1..] == [];
  }

  /** Some object that is visited, as the one called by the key of names is not, is doomed. */
  ghost predicate VisitedDoomed(level: Level, rank: map<string, nat>)
    requires Ranked(level, rank)
  {
    exists n :: n != NAME && Doomed(level, rank, n)
  }

  lemma CoverResult(level: Level, rank: map<string, nat>, order: seq<string>)
    requires Ranked(level, rank) && CoversBut(level, order, NAME)
    ensures VisitedDoomed(level, rank) ==> ProcessAll(level, rank, order).Panicked?
    ensures ResolvableBut(level, NAME) && EmptyNameHarmless(level, rank) ==>
      ProcessAll(level, rank, order) == Returned(FlatBut(level, rank, NAME))
  {
    if n :| n != NAME && Doomed(level, rank, n) {
      DoomedPanics(level, rank, level, n, order);
    }
    if ResolvableBut(level, NAME) && EmptyNameHarmless(level, rank) {
      SkippingFlattens(level, rank, order, NAME);
    }
  }

  /** Own attributes, and those of the base but for `todo`. */
  function Filled(from: Attrs, own: Attrs, todo: set<string>): Attrs {
    map k | k in own.Keys + (from.Keys - todo) :: if k in own then own[k] else from[k]
  }

  lemma FilledEnds(from: Attrs, own: Attrs)
    ensures Filled(from, own, from.Keys) == own && Filled(from, own, {}) == from + own
  {
  }

  lemma FilledStep(from: Attrs, own: Attrs, todo: set<string>, k: string)
    requires k in todo && todo <= from.Keys
    ensures var attrs := Filled(from, own, todo);
      Filled(from, own, todo - {k}) == if k in attrs then attrs else attrs[k := from[k]]
  {
  }

  lemma SetTwice(level: Level, n: string, attrs: Attrs, attrs': Attrs)
    ensures SetAttrs(SetAttrs(level, n, attrs), n, attrs') == SetAttrs(level, n, attrs')
  {
  }

  class Config {
    var level: Level

    constructor (level: Level)
      ensures this.level == level
    {
      this.level := level;
    }

    /** inheritObj(base, m), with None for a nil base; `ok` is false where Go panics. */
    method InheritObj(base: Option<string>, m: string, ghost rank: map<string, nat>) returns (ok: bool)
      requires Ranked(level, rank) && IsObject(level, m)
      requires base.Some? ==> IsObject(level, base.value) && rank[base.value] < rank[m]
      modifies this
      ensures ok <==> Inherit(old(level), rank, base, m).Returned?
      ensures ok ==> level == Inherit(old(level), rank, base, m).value
      decreases if base.Some? then 1 + rank[base.value] else 0
    {
      if base.None? {
        level := level[m := Object(level[m].attrs - {BASE})];
        return true;
      }
      var b := base.value;
      if BASE in level[b].attrs {
        if !level[b].attrs[BASE].Str? {
          return false;
        }
        var s := level[b].attrs[BASE].s;
        if s != "" {
          if s in level && level[s].Leaf? {
            return false;
          }
          assert s in level ==> NamesBase(level, b, s);
          InheritKeepsObjects(level, rank, if s in level then Some(s) else None, b);
          ok := InheritObj(if s in level then Some(s) else None, b, rank);
          if !ok {
            return;
          }
        }
      }
      assert IsObject(level, b) && IsObject(level, m);
      CopyAttrs(b, m);
      level := level[m := Object(level[m].attrs - {BASE})];
      ok := true;
    }

    /** The copy loop of inheritObj: attributes come in any order, and own ones stay. */
    method CopyAttrs(b: string, m: string)
      requires IsObject(level, b) && IsObject(level, m) && b != m
      modifies this
      ensures level == SetAttrs(old(level), m, old(level[b].attrs) + old(level[m].attrs))
    {
      ghost var start, from, own := level, level[b].attrs, level[m].attrs;
      var todo := level[b].attrs.Keys;
      FilledEnds(from, own);
      assert level == SetAttrs(start, m, own);
      while todo != {}
        invariant todo <= from.Keys && level == SetAttrs(start, m, Filled(from, own, todo))
        decreases |todo|
      {
        var k :| k in todo;
        FilledStep(from, own, todo, k);
        if k !in level[m].attrs {
          SetTwice(start, m, level[m].attrs, level[m].attrs[k := level[b].attrs[k]]);
          level := SetAttrs(level, m, level[m].attrs[k := level[b].attrs[k]]);
        }
        todo := todo - {k};
      }
    }

    /** processMapTree on one object of the level. */
    method ProcessObject(n: string, ghost rank: map<string, nat>) returns (ok: bool)
      requires Ranked(level, rank) && IsObject(level, n)
      modifies this
      ensures ok <==> ProcessOne(old(level), rank, n).Returned?
      ensures ok ==> level == ProcessOne(old(level), rank, n).value
    {
      var attrs := level[n].attrs;
      if BASE !in attrs {
        return true;
      }
      if !attrs[BASE].Str? {
        return false;
      }
      var b := attrs[BASE].s;
      if b in attrs || b !in level || level[b].Leaf? {
        return false;
      }
      assert NamesBase(level, n, b);
      ok := InheritObj(Some(b), n, rank);
    }

    /** inheritObj on the level itself, for its own link. */
    method InheritOwnLink() returns (ok: bool)
      modifies this
      ensures OwnLink(old(level)) == if ok then Returned(level) else Panicked
      ensures ok <==> BASE in old(level) ==> exists b ::
        LevelInherits(old(level), b) && (BASE in old(level)[b].attrs ==> old(level)[b].attrs[BASE] == Str(""))
    {
      if BASE !in level {
        return true;
      }
      if level[BASE].Object? || !level[BASE].value.Str? || !IsObject(level, level[BASE].value.s) {
        return false;
      }
      var attrs := level[level[BASE].value.s].attrs;
      assert LevelInherits(level, level[BASE].value.s);
      if BASE in attrs && attrs[BASE] != Str("") {
        return false;
      }
      ghost var start := level;
      var todo := attrs.Keys;
      while todo != {}
        invariant todo <= attrs.Keys && BASE in level && level.Keys == start.Keys + (attrs.Keys - todo)
        invariant forall k | k in level :: level[k] == if k in start then start[k] else Leaf(attrs[k])
        decreases |todo|
      {
        var k :| k in todo;
        if k !in level {
          level := level[k := Leaf(attrs[k])];
        }
        todo := todo - {k};
      }
      level := level - {BASE};
      assert level == (map k | k in attrs :: Leaf(attrs[k])) + start - {BASE};
      ok := true;
    }

    /** processMapTree on the top level: name the objects, follow the level's own link, then
        process each object, in any order, but for one called by the key of names. The ghost
        result is the order that was taken. A visited object that is doomed makes it panic;
        where the links resolve, and the empty name adds nothing, the level ends flattened, but
        for the object called by the key of names unless others inherit through it. */
    method ProcessLevel(ghost rank: map<string, nat>) returns (ok: bool, ghost order: seq<string>)
      requires Ranked(level, rank)
      modifies this
      ensures ok ==> Settled(old(level), level)
      ensures ok ==> OwnLink(Named(old(level))).Returned?
      ensures OwnLink(Named(old(level))).Returned? ==> var start := OwnLink(Named(old(level))).value;
        && Ranked(start, rank) && Distinct(order) && (forall n | n in order :: IsObject(start, n))
        && ProcessAll(start, rank, order) == (if ok then Returned(level) else Panicked)
        && (ok ==> CoversBut(start, order, NAME))
        && (VisitedDoomed(start, rank) ==> !ok)
        && (ResolvableBut(start, NAME) && EmptyNameHarmless(start, rank) ==>
              ok && level == FlatBut(start, rank, NAME))
    {
      NamedIsRanked(level, rank);
      NameObjects();
      order := [];
      if OwnLink(level).Returned? {
        OwnLinkKeepsObjects(level, rank);
      }
      ok := InheritOwnLink();
      if ok {
        ghost var start := level;
        ok, order := ProcessObjects(rank);
        if ok {
          RunSettles(old(level), rank, start, order, level);
        }
      }
    }

    /** The last loop of processMapTree. */
    method ProcessObjects(ghost rank: map<string, nat>) returns (ok: bool, ghost order: seq<string>)
      requires Ranked(level, rank)
      modifies this
      ensures Distinct(order) && forall n | n in order :: IsObject(old(level), n)
      ensures ProcessAll(old(level), rank, order) == if ok then Returned(level) else Panicked
      ensures ok ==> CoversBut(old(level), order, NAME)
      ensures VisitedDoomed(old(level), rank) ==> !ok
      ensures ResolvableBut(old(level), NAME) && EmptyNameHarmless(old(level), rank) ==>
        ok && level == FlatBut(old(level), rank, NAME)
    {
      ghost var start := level;
      order := [];
      var todo := set n | n in level && level[n].Object? && n != NAME;
      while todo != {}
        invariant Distinct(order) && forall n | n in order :: IsObject(start, n) && n != NAME
        invariant forall n | n in todo :: IsObject(start, n) && n != NAME && n !in order
        invariant forall n | IsObject(start, n) && n != NAME :: n in todo || n in order
        invariant ProcessAll(start, rank, order) == Returned(level)
        decreases |todo|
      {
        var n :| n in todo;
        ProcessAllSnoc(start, rank, order, n);
        order := order + [n];
        ok := ProcessObject(n, rank);
        if !ok {
          if ResolvableBut(start, NAME) {
            SkippingReturns(start, rank, order, NAME);
          }
          return;
        }
        todo := todo - {n};
      }
      ok := true;
      CoverResult(start, rank, order);
    }

    /** Objects get the name of their entry, over any attribute of that key; the rest stays. */
    method NameObjects()
      modifies this
      ensures level == Named(old(level)) && level.Keys == old(level).Keys
      ensures forall n | IsObject(level, n) && n != NAME ::
        && old(level)[n].Object? && NAME in level[n].attrs && level[n].attrs[NAME] == Str(n)
        && level[n].attrs - {NAME} == old(level)[n].attrs - {NAME}
      ensures forall n | n in level && (level[n].Leaf? || n == NAME) :: level[n] == old(level)[n]
    {
      ghost var start := level;
      var todo := level.Keys;
      while todo != {}
        invariant todo <= start.Keys && level.Keys == start.Keys
        invariant forall n | n in start :: level[n] == if n in todo then start[n] else Named(start)[n]
        decreases |todo|
      {
        var n :| n in todo;
        if n != NAME && level[n].Object? {
          level := level[n := Object(level[n].attrs[NAME := Str(n)])];
        }
        todo := todo - {n};
      }
    }
  }

  // ------------------------------------------------------------- a known answer

  const ATTRS_A: Attrs := map["x" := Num(1.0), "__base_obj_name__" := Str("b")]
  const ATTRS_B: Attrs := map["x" := Num(3.0), "y" := Num(2.0)]

  /** A level as it is read, and as it is when it has been processed. */
  const READ: Level := map["a" := Object(ATTRS_A), "b" := Object(ATTRS_B)]
  const NAMED: Level := map["a" := Object(ATTRS_A[NAME := Str("a")]), "b" := Object(ATTRS_B[NAME := Str("b")])]
  const DONE: Level := map[
    "a" := Object(map["x" := Num(1.0), "y" := Num(2.0), "__name__" := Str("a")]),
    "b" := Object(map["x" := Num(3.0), "y" := Num(2.0), "__name__" := Str("b")])]

  const RANK: map<string, nat> := map["a" := 1, "b" := 0]

  lemma DifferentTexts()
    ensures "a" != "b" && "x" != "y" && |NAME| == 8 && |BASE| == 17 && BASE == "__base_obj_name__"
  {
    assert "a"[0] != "b"[0] && "x"[0] != "y"[0];
  }

  lemma KnownNames()
    ensures Named(READ) == NAMED && OwnLink(NAMED) == Returned(NAMED)
  {
    DifferentTexts();
  }

  lemma KnownLinks()
    ensures Ranked(READ, RANK) && Ranked(NAMED, RANK)
    ensures IsObject(NAMED, "a") && IsObject(NAMED, "b") && LinkOf(NAMED, "a") == To("b") && LinkOf(NAMED, "b") == End
  {
    DifferentTexts();
  }

  lemma KnownAttrs()
    ensures Own(NAMED, "b") == DONE["b"].attrs && Own(NAMED, "b") + Own(NAMED, "a") == DONE["a"].attrs
  {
    DifferentTexts();
  }

  lemma KnownResolves()
    ensures Ranked(NAMED, RANK) && ResolvableBut(NAMED, NAME) && EmptyNameHarmless(NAMED, RANK)
  {
    DifferentTexts();
    KnownLinks();
  }

  lemma KnownFlat()
    ensures Ranked(NAMED, RANK) && FlatBut(NAMED, RANK, NAME) == DONE
  {
    DifferentTexts();
    KnownLinks();
    KnownAttrs();
    assert Effective(NAMED, RANK, "b") == Own(NAMED, "b");
    assert Effective(NAMED, RANK, "a") == Effective(NAMED, RANK, "b") + Own(NAMED, "a");
  }

  /** The object a inherits from b what it does not have, and not its name. */
  method KnownLevel() returns (after: Level)
    ensures after == DONE
  {
    KnownLinks();
    KnownNames();
    KnownResolves();
    KnownFlat();
    var config := new Config(READ);
    var ok, order := config.ProcessLevel(RANK);
    after := config.level;
  }
}
