/** The order in which processMapTree of common/map.go visits the objects of a level is that
    of a Go map: any. This module says what a run leaves behind in every order, and exactly
    when all orders end the same. */
module ConfigOrder {
  import opened ConfigInheritance
  import opened Counting
  import opened Outcomes

  predicate Linked(level: Level, n: string) {
    IsObject(level, n) && BASE in level[n].attrs
  }

  /** Every link names an object of the level and no attribute of its own object. */
  ghost predicate AllResolvable(level: Level) {
    forall n | Linked(level, n) :: Resolvable(level, n)
  }

  /** A map order of the objects: each is visited, and once. */
  ghost predicate Covers(level: Level, order: seq<string>) {
    && Distinct(order)
    && (forall n | n in order :: IsObject(level, n))
    && (forall n | IsObject(level, n) :: n in order)
  }

  // ------------------------------------------------------------- the empty name

  /** The object names as its base the one called by the empty string: a link that
      processMapTree follows and inheritObj takes for none. */
  predicate EmptyLinked(level: Level, n: string) {
    Linked(level, n) && level[n].attrs[BASE] == Str("") && IsObject(level, "")
  }

  /** What `n` stands for when such a link at the end of its chain has been followed. */
  ghost function Late(level: Level, rank: map<string, nat>, n: string): (r: Attrs)
    requires Ranked(level, rank) && IsObject(level, n)
    ensures BASE !in r
    decreases rank[n]
  {
    if EmptyLinked(level, n) then Effective(level, rank, "") + Own(level, n)
    else
      match LinkOf(level, n)
      case To(b) => assert NamesBase(level, n, b); Late(level, rank, b) + Own(level, n)
      case _ => Own(level, n)
  }

  ghost predicate EndsEmpty(level: Level, rank: map<string, nat>, n: string)
    requires Ranked(level, rank) && IsObject(level, n)
  {
    exists x :: EmptyLinked(level, x) && x in Chain(level, rank, n)
  }

  lemma {:induction false} ChainRanks(level: Level, rank: map<string, nat>, n: string, x: string)
    requires Ranked(level, rank) && IsObject(level, n) && x in Chain(level, rank, n)
    ensures IsObject(level, x) && rank[x] <= rank[n]
    ensures x != n ==> LinkOf(level, n).To?
    decreases rank[n]
  {
    match LinkOf(level, n) {
      case To(b) =>
        assert NamesBase(level, n, b);
        if x != n {
          ChainRanks(level, rank, b, x);
        }
      case _ =>
    }
  }

  /** Following the link at the end adds the attributes of the object with the empty name. */
  lemma {:induction false} LateAdds(level: Level, rank: map<string, nat>, n: string)
    requires Ranked(level, rank) && IsObject(level, n)
    ensures EndsEmpty(level, rank, n) ==> IsObject(level, "")
    ensures Late(level, rank, n) ==
      if EndsEmpty(level, rank, n) then Effective(level, rank, "") + Effective(level, rank, n)
      else Effective(level, rank, n)
    decreases rank[n]
  {
    match LinkOf(level, n) {
      case To(b) =>
        assert NamesBase(level, n, b);
        LateAdds(level, rank, b);
        assert Chain(level, rank, n) == [n] + Chain(level, rank, b);
        assert !EmptyLinked(level, n);
        assert EndsEmpty(level, rank, n) <==> EndsEmpty(level, rank, b);
      case _ =>
        assert Chain(level, rank, n) == [n];
        assert n in Chain(level, rank, n);
    }
  }

  /** The object with the empty name has no such link on its own chain. */
  lemma EmptyNameIsPlain(level: Level, rank: map<string, nat>)
    requires Ranked(level, rank) && IsObject(level, "")
    ensures Late(level, rank, "") == Effective(level, rank, "")
  {
    LateAdds(level, rank, "");
    if x :| EmptyLinked(level, x) && x in Chain(level, rank, "") {
      ChainRanks(level, rank, "", x);
      assert NamesBase(level, x, "");
    }
  }

  /** Whatever the object with the empty name adds is defined already by each object that
      inherits, through others, from one that names it. */
  ghost predicate EmptyNameHarmless(level: Level, rank: map<string, nat>)
    requires Ranked(level, rank)
  {
    forall c, n | IsObject(level, c) && EmptyLinked(level, n) && c != n && n in Chain(level, rank, c) ::
      Effective(level, rank, "").Keys <= Effective(level, rank, c).Keys
  }

  lemma HarmlessIsPlain(level: Level, rank: map<string, nat>, c: string)
    requires Ranked(level, rank) && EmptyNameHarmless(level, rank) && IsObject(level, c) && !EmptyLinked(level, c)
    ensures Late(level, rank, c) == Effective(level, rank, c)
  {
    LateAdds(level, rank, c);
    if n :| EmptyLinked(level, n) && n in Chain(level, rank, c) {
      assert Effective(level, rank, "").Keys <= Effective(level, rank, c).Keys;
      assert Effective(level, rank, "") + Effective(level, rank, c) == Effective(level, rank, c);
    }
  }

  // ------------------------------------------------------------- what a run leaves behind

  /** `n` lost its link between the two levels, and has all it stands for. */
  ghost predicate Worked(level: Level, rank: map<string, nat>, next: Level, n: string)
    requires Ranked(level, rank) && IsObject(level, n) && n in next
  {
    && Linked(level, n)
    && (|| next[n] == Object(Late(level, rank, n))
        || (next[n] == Object(Effective(level, rank, n)) && !EmptyLinked(level, n)))
  }

  /** Every entry is as it was or worked. */
  ghost predicate Reworked(level: Level, rank: map<string, nat>, next: Level)
    requires Ranked(level, rank)
  {
    && next.Keys == level.Keys
    && forall n | n in level :: next[n] == level[n] || (level[n].Object? && Worked(level, rank, next, n))
  }

  lemma ReworkedIsRanked(level: Level, rank: map<string, nat>, next: Level)
    requires Ranked(level, rank) && Reworked(level, rank, next)
    ensures Ranked(next, rank)
    ensures forall n :: IsObject(next, n) <==> IsObject(level, n)
    ensures forall n | Linked(next, n) :: next[n] == level[n] && LinkOf(next, n) == LinkOf(level, n)
    ensures forall n | Linked(next, n) :: Resolvable(next, n) <==> Resolvable(level, n)
  {
  }

  /** In every level that a run comes through, an object stands for one of the two. */
  lemma {:induction false} ReworkMeaning(level: Level, rank: map<string, nat>, next: Level, n: string)
    requires Ranked(level, rank) && Reworked(level, rank, next) && Ranked(next, rank)
    requires IsObject(level, n) && IsObject(next, n)
    ensures Effective(next, rank, n) == Effective(level, rank, n) || Effective(next, rank, n) == Late(level, rank, n)
    ensures forall x | x in Chain(next, rank, n) :: x in Chain(level, rank, n)
    ensures Sound(level, rank, n) ==> Sound(next, rank, n)
    decreases rank[n]
  {
    ReworkedIsRanked(level, rank, next);
    if Linked(next, n) {
      match LinkOf(level, n) {
        case To(b) =>
          assert NamesBase(level, n, b) && NamesBase(next, n, b);
          ReworkMeaning(level, rank, next, b);
        case _ =>
      }
    } else {
      assert Own(next, n) == next[n].attrs;
      if next[n] == level[n] {
        assert LinkOf(level, n) == End;
      }
    }
  }

  /** What one step does, from wherever the run is. */
  lemma StepChanges(level: Level, rank: map<string, nat>, m: string)
    requires Ranked(level, rank) && Linked(level, m) && ProcessOne(level, rank, m).Returned?
    ensures Resolvable(level, m)
    ensures var b, next := level[m].attrs[BASE].s, ProcessOne(level, rank, m).value;
      && NamesBase(level, m, b) && Inherit(level, rank, Some(b), m) == Returned(next)
      && next.Keys == level.Keys
      && next[m] == Object(Effective(level, rank, b) + Own(level, m))
      && forall x | x in level && x != m :: next[x] == level[x] || (level[x].Object? && Flattened(level, rank, next, x))
  {
    var b := level[m].attrs[BASE].s;
    assert NamesBase(level, m, b);
    InheritMeaning(level, rank, Some(b), m);
    var next := ProcessOne(level, rank, m).value;
    var back := next[m := level[m]];
    assert Compressed(level, rank, back);
    forall x | x in level && x != m
      ensures next[x] == level[x] || (level[x].Object? && Flattened(level, rank, next, x))
    {
      assert back[x] == level[x] || (level[x].Object? && Flattened(level, rank, back, x));
    }
  }

  lemma StepReworks(level: Level, rank: map<string, nat>, now: Level, m: string)
    requires Ranked(level, rank) && Reworked(level, rank, now) && Ranked(now, rank) && IsObject(now, m)
    requires ProcessOne(now, rank, m).Returned?
    ensures Reworked(level, rank, ProcessOne(now, rank, m).value)
  {
    if Linked(now, m) {
      StepChanges(now, rank, m);
      ReworkedIsRanked(level, rank, now);
      var next, b := ProcessOne(now, rank, m).value, now[m].attrs[BASE].s;
      forall x | x in level && x != m
        ensures next[x] == level[x] || (level[x].Object? && Worked(level, rank, next, x))
      {
        if next[x] != now[x] {
          ReworkMeaning(level, rank, now, x);
        }
      }
      ReworkMeaning(level, rank, now, b);
      assert Worked(level, rank, next, m) by {
        if b == "" {
          EmptyNameIsPlain(level, rank);
        }
      }
    }
  }

  /** An object without a link is never changed again, and one that was processed has none. */
  lemma StepKeepsUnlinked(level: Level, rank: map<string, nat>, m: string)
    requires Ranked(level, rank) && IsObject(level, m) && ProcessOne(level, rank, m).Returned?
    ensures var next := ProcessOne(level, rank, m).value;
      && next.Keys == level.Keys
      && !Linked(next, m)
      && (forall n | n in level && !Linked(level, n) :: next[n] == level[n])
  {
    if Linked(level, m) {
      StepChanges(level, rank, m);
    }
  }

  /** Wherever a run goes from there, objects are as they were at the start or worked, those
      without a link stay, and those that it processed have none. */
  lemma {:induction false} RunReworks(level: Level, rank: map<string, nat>, now: Level, order: seq<string>)
    requires Ranked(level, rank) && Reworked(level, rank, now) && Ranked(now, rank)
    requires (forall n | n in order :: IsObject(now, n)) && ProcessAll(now, rank, order).Returned?
    ensures var end := ProcessAll(now, rank, order).value;
      && Reworked(level, rank, end)
      && (forall n | n in now && !Linked(now, n) :: end[n] == now[n])
      && (forall n | n in order :: !Linked(end, n))
    decreases |order|
  {
    if order != [] {
      var m := order[0];
      var next := ProcessOne(now, rank, m).value;
      ProcessOneKeepsShape(now, rank, m);
      StepReworks(level, rank, now, m);
      StepKeepsUnlinked(now, rank, m);
      assert forall n | n in order[1..] :: n in order;
      RunReworks(level, rank, next, order[1..]);
      assert forall n | n in order :: n == m || n in order[1..];
    }
  }

  ghost predicate NoBadLink(level: Level) {
    forall n | IsObject(level, n) :: !LinkOf(level, n).Bad?
  }

  lemma {:induction false} NoBadLinkIsSound(level: Level, rank: map<string, nat>, n: string)
    requires Ranked(level, rank) && NoBadLink(level) && IsObject(level, n)
    ensures Sound(level, rank, n)
    decreases rank[n]
  {
    match LinkOf(level, n) {
      case To(b) =>
        assert NamesBase(level, n, b);
        NoBadLinkIsSound(level, rank, b);
      case _ =>
    }
  }

  lemma StepReturns(level: Level, rank: map<string, nat>, now: Level, m: string)
    requires Ranked(level, rank) && Reworked(level, rank, now) && Ranked(now, rank) && IsObject(now, m)
    requires NoBadLink(level) && (Linked(now, m) ==> Resolvable(now, m))
    ensures ProcessOne(now, rank, m).Returned?
  {
    if Linked(now, m) {
      var b := now[m].attrs[BASE].s;
      assert NamesBase(now, m, b);
      ReworkedIsRanked(level, rank, now);
      NoBadLinkIsSound(level, rank, b);
      ReworkMeaning(level, rank, now, b);
      InheritMeaning(now, rank, Some(b), m);
    }
  }

  /** A run over objects that have no link or one that resolves does not panic. */
  lemma {:induction false} RunReturns(level: Level, rank: map<string, nat>, now: Level, order: seq<string>)
    requires Ranked(level, rank) && Reworked(level, rank, now) && Ranked(now, rank) && NoBadLink(level)
    requires forall n | n in order :: IsObject(now, n) && (Linked(now, n) ==> Resolvable(now, n))
    ensures ProcessAll(now, rank, order).Returned?
    decreases |order|
  {
    if order != [] {
      var m := order[0];
      StepReturns(level, rank, now, m);
      var next := ProcessOne(now, rank, m).value;
      ProcessOneKeepsShape(now, rank, m);
      StepReworks(level, rank, now, m);
      StepKeepsUnlinked(now, rank, m);
      ReworkedIsRanked(level, rank, now);
      ReworkedIsRanked(level, rank, next);
      forall n | n in order[1..]
        ensures IsObject(next, n) && (Linked(next, n) ==> Resolvable(next, n))
      {
        assert n in order;
      }
      RunReturns(level, rank, next, order[1..]);
    }
  }

  /** The level with every object replaced by what it stands for. */
  ghost function Flat(level: Level, rank: map<string, nat>): Level
    requires Ranked(level, rank)
  {
    map n | n in level ::
      if !level[n].Object? then level[n]
      else if EmptyLinked(level, n) then Object(Effective(level, rank, "") + Own(level, n))
      else Object(Effective(level, rank, n))
  }

  lemma ResolvableReturns(level: Level, rank: map<string, nat>, order: seq<string>)
    requires Ranked(level, rank) && AllResolvable(level) && forall n | n in order :: IsObject(level, n)
    ensures ProcessAll(level, rank, order).Returned?
  {
    assert NoBadLink(level) by {
      assert forall n | IsObject(level, n) && LinkOf(level, n).Bad? :: Linked(level, n);
    }
    RunReturns(level, rank, level, order);
  }

  lemma EndsFlat(level: Level, rank: map<string, nat>, end: Level, n: string)
    requires Ranked(level, rank) && EmptyNameHarmless(level, rank) && Reworked(level, rank, end)
    requires IsObject(level, n) && !Linked(end, n)
    ensures end[n] == Flat(level, rank)[n]
  {
    if !EmptyLinked(level, n) {
      HarmlessIsPlain(level, rank, n);
    }
    if end[n] == level[n] {
      assert Own(level, n) == level[n].attrs;
    }
  }

  /** Whatever order the objects are processed in, the level ends with every object replaced
      by what it stands for. */
  lemma AnyOrderFlattens(level: Level, rank: map<string, nat>, order: seq<string>)
    requires Ranked(level, rank) && AllResolvable(level) && EmptyNameHarmless(level, rank) && Covers(level, order)
    ensures ProcessAll(level, rank, order) == Returned(Flat(level, rank))
  {
    ResolvableReturns(level, rank, order);
    RunReworks(level, rank, level, order);
    var end := ProcessAll(level, rank, order).value;
    forall n | n in level
      ensures end[n] == Flat(level, rank)[n]
    {
      if level[n].Object? {
        assert n in order;
        EndsFlat(level, rank, end, n);
      }
    }
    assert end == Flat(level, rank);
  }

  // ------------------------------------------------------------- when every order panics

  /** Links that inheritObj takes away on its way. */
  predicate Passing(level: Level, n: string) {
    IsObject(level, n) && (LinkOf(level, n).To? || LinkOf(level, n).Missing?)
  }

  /** The processing of another object takes the link of `n` away: inheritObj does not panic on
      it or leave it, and `n` is on the chain of the base of an object that resolves. */
  ghost predicate Taken(level: Level, rank: map<string, nat>, n: string)
    requires Ranked(level, rank)
  {
    Passing(level, n) && exists c, b :: NamesBase(level, c, b) && Resolvable(level, c) && n in Chain(level, rank, b)
  }

  /** No order saves `n`: its own processing panics, and nobody's else takes its link away. */
  ghost predicate Doomed(level: Level, rank: map<string, nat>, n: string)
    requires Ranked(level, rank)
  {
    Linked(level, n) && !Resolvable(level, n) && !Taken(level, rank, n)
  }

  lemma {:induction false} InheritStaysOnChain(
    level: Level, rank: map<string, nat>, base: Option<string>, m: string, x: string)
    requires Ranked(level, rank) && IsObject(level, m)
    requires base.Some? ==> IsObject(level, base.value) && rank[base.value] < rank[m]
    requires Inherit(level, rank, base, m).Returned?
    requires x in level && x != m && (base.Some? ==> x !in Chain(level, rank, base.value))
    ensures x in Inherit(level, rank, base, m).value && Inherit(level, rank, base, m).value[x] == level[x]
    decreases if base.Some? then 1 + rank[base.value] else 0
  {
    if base.Some? {
      var b := base.value;
      assert b in Chain(level, rank, b);
      match LinkOf(level, b) {
        case Missing => InheritStaysOnChain(level, rank, None, b, x);
        case To(s) =>
          assert NamesBase(level, b, s);
          InheritStaysOnChain(level, rank, Some(s), b, x);
        case _ =>
      }
    }
  }

  lemma NotTakenStays(level: Level, rank: map<string, nat>, now: Level, n: string, m: string)
    requires Ranked(level, rank) && Reworked(level, rank, now) && Ranked(now, rank)
    requires IsObject(level, n) && !Taken(level, rank, n) && now[n] == level[n] && IsObject(now, m) && m != n
    requires ProcessOne(now, rank, m).Returned?
    ensures n in ProcessOne(now, rank, m).value && ProcessOne(now, rank, m).value[n] == level[n]
  {
    ReworkedIsRanked(level, rank, now);
    if Linked(now, m) {
      StepChanges(now, rank, m);
      if Passing(level, n) {
        var b := now[m].attrs[BASE].s;
        assert NamesBase(level, m, b) && Resolvable(level, m);
        ReworkMeaning(level, rank, now, b);
        InheritStaysOnChain(now, rank, Some(b), m, n);
      }
    }
  }

  lemma {:induction false} DoomedPanics(level: Level, rank: map<string, nat>, now: Level, n: string, order: seq<string>)
    requires Ranked(level, rank) && Reworked(level, rank, now) && Ranked(now, rank)
    requires Doomed(level, rank, n) && now[n] == level[n]
    requires n in order && forall x | x in order :: IsObject(now, x)
    ensures ProcessAll(now, rank, order).Panicked?
    decreases |order|
  {
    var m := order[0];
    ReworkedIsRanked(level, rank, now);
    if m != n && ProcessOne(now, rank, m).Returned? {
      NotTakenStays(level, rank, now, n, m);
      ProcessOneKeepsShape(now, rank, m);
      StepReworks(level, rank, now, m);
      assert forall x | x in order[1..] :: x in order;
      DoomedPanics(level, rank, ProcessOne(now, rank, m).value, n, order[1..]);
    }
  }

  // ------------------------------------------------------------- when some order returns

  /** Objects lose their links together with those they inherit from. */
  ghost predicate UpClosed(level: Level, now: Level) {
    forall c, b | NamesBase(level, c, b) && !Linked(now, c) && Passing(level, b) :: !Linked(now, b)
  }

  /** m's link, as given to inheritObj: None where it names no object. */
  ghost predicate IsBaseOf(level: Level, base: Option<string>, m: string) {
    forall b :: NamesBase(level, m, b) ==> base == Some(b)
  }

  lemma UnlinkCloses(level: Level, mid: Level, base: Option<string>, m: string, attrs: Attrs)
    requires UpClosed(level, mid) && IsBaseOf(level, base, m) && BASE !in attrs
    requires base.Some? && base.value != m && Passing(level, base.value) ==> !Linked(mid, base.value)
    ensures UpClosed(level, SetAttrs(mid, m, attrs))
  {
    var next := SetAttrs(mid, m, attrs);
    assert !Linked(next, m) && forall x | x != m :: Linked(next, x) <==> Linked(mid, x);
  }

  lemma {:induction false} InheritCloses(
    level: Level, rank: map<string, nat>, now: Level, base: Option<string>, m: string)
    requires Ranked(level, rank) && Reworked(level, rank, now) && Ranked(now, rank) && UpClosed(level, now)
    requires Linked(now, m) && IsBaseOf(level, base, m)
    requires base.Some? ==> IsObject(now, base.value) && rank[base.value] < rank[m]
    requires Inherit(now, rank, base, m).Returned?
    ensures UpClosed(level, Inherit(now, rank, base, m).value) && !Linked(Inherit(now, rank, base, m).value, m)
    decreases if base.Some? then 1 + rank[base.value] else 0
  {
    ReworkedIsRanked(level, rank, now);
    if base.None? {
      UnlinkCloses(level, now, base, m, Own(now, m));
    } else {
      var b := base.value;
      match LinkOf(now, b) {
        case Bad =>
        case End => UnlinkCloses(level, now, base, m, Fill(now[b].attrs, now[m].attrs));
        case Missing =>
          InheritCloses(level, rank, now, None, b);
          var mid := Inherit(now, rank, None, b).value;
          UnlinkCloses(level, mid, base, m, Fill(mid[b].attrs, mid[m].attrs));
        case To(s) =>
          assert NamesBase(now, b, s);
          InheritCloses(level, rank, now, Some(s), b);
          var mid := Inherit(now, rank, Some(s), b).value;
          UnlinkCloses(level, mid, base, m, Fill(mid[b].attrs, mid[m].attrs));
      }
    }
  }

  lemma {:induction false} RunCloses(level: Level, rank: map<string, nat>, now: Level, order: seq<string>)
    requires Ranked(level, rank) && Reworked(level, rank, now) && Ranked(now, rank) && UpClosed(level, now)
    requires (forall n | n in order :: IsObject(now, n)) && ProcessAll(now, rank, order).Returned?
    ensures UpClosed(level, ProcessAll(now, rank, order).value)
    decreases |order|
  {
    if order != [] {
      var m := order[0];
      var next := ProcessOne(now, rank, m).value;
      ReworkedIsRanked(level, rank, now);
      if Linked(now, m) {
        StepChanges(now, rank, m);
        InheritCloses(level, rank, now, Some(now[m].attrs[BASE].s), m);
      }
      ProcessOneKeepsShape(now, rank, m);
      StepReworks(level, rank, now, m);
      assert forall n | n in order[1..] :: n in order;
      RunCloses(level, rank, next, order[1..]);
    }
  }

  /** Up a chain, from an object that has lost its link if it could. */
  lemma {:induction false} ClosedChain(level: Level, rank: map<string, nat>, now: Level, b: string, n: string)
    requires Ranked(level, rank) && UpClosed(level, now) && IsObject(level, b)
    requires n in Chain(level, rank, b) && Passing(level, n) && (Passing(level, b) ==> !Linked(now, b))
    ensures !Linked(now, n)
    decreases rank[b]
  {
    if n != b {
      ChainRanks(level, rank, b, n);
      var d := LinkOf(level, b).base;
      assert NamesBase(level, b, d);
      ClosedChain(level, rank, now, d, n);
    }
  }

  lemma {:induction false} ProcessAllConcat(
    level: Level, rank: map<string, nat>, first: seq<string>, second: seq<string>)
    requires Ranked(level, rank) && forall n | n in first + second :: IsObject(level, n)
    requires (forall n | n in first :: IsObject(level, n)) && ProcessAll(level, rank, first).Returned?
    ensures var mid := ProcessAll(level, rank, first).value;
      && Ranked(mid, rank) && (forall n | n in second :: IsObject(mid, n))
      && ProcessAll(level, rank, first + second) == ProcessAll(mid, rank, second)
    decreases |first|
  {
    var both := first + second;
    assert forall n | n in second :: n in both;
    if first == [] {
      assert both == second;
    } else {
      ProcessOneKeepsShape(level, rank, first[0]);
      assert both[1..] == first[1..] + second && both[0] == first[0];
      assert forall n | n in first[1..] :: n in first;
      assert forall n | n in both[1..] :: n in both;
      ProcessAllConcat(ProcessOne(level, rank, first[0]).value, rank, first[1..], second);
    }
  }

  lemma {:induction false} SomeOrder(names: set<string>) returns (order: seq<string>)
    ensures Distinct(order) && forall n :: n in order <==> n in names
    decreases names
  {
    if names == {} {
      order := [];
    } else {
      var n :| n in names;
      var rest := SomeOrder(names - {n});
      order := [n] + rest;
    }
  }

  /** A map order that starts with the given objects. */
  lemma CoverFrom(level: Level, first: seq<string>) returns (rest: seq<string>)
    requires Distinct(first) && forall n | n in first :: IsObject(level, n)
    ensures Covers(level, first + rest)
  {
    rest := SomeOrder(set n | n in level && level[n].Object? && n !in first);
    forall i, j | 0 <= i < j < |first + rest|
      ensures (first + rest)[i] != (first + rest)[j]
    {
      if i < |first| <= j {
        assert rest[j - |first|] in rest && first[i] in first;
      }
    }
    assert forall n :: n in first + rest <==> n in first || n in rest;
  }

  lemma SomeCover(level: Level) returns (order: seq<string>)
    ensures Covers(level, order)
  {
    var rest := CoverFrom(level, []);
    order := [] + rest;
  }

  /** Once all links that resolve have been taken, no link is left. */
  lemma ResolvedFirst(level: Level, rank: map<string, nat>, now: Level, n: string)
    requires Ranked(level, rank) && UpClosed(level, now) && !Doomed(level, rank, n)
    requires forall c | Linked(level, c) && Resolvable(level, c) :: !Linked(now, c)
    requires Linked(level, n)
    ensures !Linked(now, n)
  {
    if !Resolvable(level, n) {
      var c, b :| NamesBase(level, c, b) && Resolvable(level, c) && n in Chain(level, rank, b);
      ClosedChain(level, rank, now, b, n);
    }
  }

  /** Unless some object is doomed, an order that visits first the objects whose links
      resolve gets through. */
  lemma SomeOrderReturns(level: Level, rank: map<string, nat>) returns (order: seq<string>)
    requires Ranked(level, rank) && forall n | Linked(level, n) :: !Doomed(level, rank, n)
    ensures Covers(level, order) && ProcessAll(level, rank, order).Returned?
  {
    assert NoBadLink(level) by {
      assert forall n | IsObject(level, n) && LinkOf(level, n).Bad? :: Linked(level, n) && Doomed(level, rank, n);
    }
    var first := SomeOrder(set n | n in level && Linked(level, n) && Resolvable(level, n));
    var rest := CoverFrom(level, first);
    order := first + rest;
    RunReturns(level, rank, level, first);
    RunReworks(level, rank, level, first);
    RunCloses(level, rank, level, first);
    var mid := ProcessAll(level, rank, first).value;
    ReworkedIsRanked(level, rank, mid);
    ProcessAllConcat(level, rank, first, rest);
    forall n | n in rest
      ensures IsObject(mid, n) && !Linked(mid, n)
    {
      if Linked(mid, n) {
        ResolvedFirst(level, rank, mid, n);
      }
    }
    RunReturns(level, rank, mid, rest);
  }

  // ------------------------------------------------------------- when the empty name matters

  lemma ProcessAllFirst(level: Level, rank: map<string, nat>, m: string, rest: seq<string>)
    requires Ranked(level, rank) && IsObject(level, m) && forall n | n in rest :: IsObject(level, n)
    requires ProcessOne(level, rank, m).Returned?
    ensures forall n | n in [m] + rest :: IsObject(level, n)
    ensures var mid := ProcessOne(level, rank, m).value;
      && Ranked(mid, rank) && (forall n | n in rest :: IsObject(mid, n))
      && ProcessAll(level, rank, [m] + rest) == ProcessAll(mid, rank, rest)
  {
    ProcessOneKeepsShape(level, rank, m);
    assert ([m] + rest)[1..] == rest;
  }

  lemma {:induction false} ChainSurvives(level: Level, rank: map<string, nat>, next: Level, n: string, c: string)
    requires Ranked(level, rank) && Ranked(next, rank) && IsObject(level, c) && n in Chain(level, rank, c)
    requires next.Keys == level.Keys && forall x :: IsObject(next, x) <==> IsObject(level, x)
    requires IsObject(level, n) && forall x | IsObject(level, x) && x != n && rank[x] >= rank[n] :: next[x] == level[x]
    ensures n in Chain(next, rank, c)
    decreases rank[c]
  {
    if c != n {
      ChainRanks(level, rank, c, n);
      var b := LinkOf(level, c).base;
      assert NamesBase(level, c, b);
      ChainSurvives(level, rank, next, n, b);
      assert LinkOf(next, c) == To(b);
    }
  }

  lemma {:induction false} ChainInherits(level: Level, rank: map<string, nat>, n: string, c: string, k: string)
    requires Ranked(level, rank) && IsObject(level, c) && n in Chain(level, rank, c)
    requires IsObject(level, n) && k in Own(level, n)
    ensures k in Effective(level, rank, c)
    decreases rank[c]
  {
    if c != n {
      ChainRanks(level, rank, c, n);
      var b := LinkOf(level, c).base;
      assert NamesBase(level, c, b);
      ChainInherits(level, rank, n, b, k);
    }
  }

  /** Processed first, `c` ends with what it stands for. */
  lemma ProcessedFirst(level: Level, rank: map<string, nat>, c: string, order: seq<string>)
    requires Ranked(level, rank) && AllResolvable(level) && IsObject(level, c) && LinkOf(level, c).To?
    requires forall n | n in order :: IsObject(level, n)
    ensures (forall n | n in [c] + order :: IsObject(level, n)) && ProcessAll(level, rank, [c] + order).Returned?
    ensures var end := ProcessAll(level, rank, [c] + order).value;
      c in end && end[c] == Object(Effective(level, rank, c))
  {
    ResolvableReturns(level, rank, [c]);
    ResolvableReturns(level, rank, [c] + order);
    assert ProcessOne(level, rank, c).Returned? by {
      assert [c][0] == c;
    }
    ProcessAllFirst(level, rank, c, order);
    StepChanges(level, rank, c);
    StepReworks(level, rank, level, c);
    RunReworks(level, rank, ProcessOne(level, rank, c).value, order);
  }

  lemma EmptyLinkFirst(level: Level, rank: map<string, nat>, n: string) returns (next: Level)
    requires Ranked(level, rank) && AllResolvable(level) && EmptyLinked(level, n)
    ensures ProcessOne(level, rank, n) == Returned(next) && Ranked(next, rank) && AllResolvable(next)
    ensures next.Keys == level.Keys && forall x :: IsObject(next, x) <==> IsObject(level, x)
    ensures next[n] == Object(Effective(level, rank, "") + Own(level, n))
    ensures forall x | IsObject(level, x) && x != n && rank[x] >= rank[n] :: next[x] == level[x]
  {
    ResolvableReturns(level, rank, [n]);
    assert ProcessOne(level, rank, n).Returned? by {
      assert [n][0] == n;
    }
    next := ProcessOne(level, rank, n).value;
    StepChanges(level, rank, n);
    InheritMeaning(level, rank, Some(""), n);
    StepReworks(level, rank, level, n);
    ReworkedIsRanked(level, rank, next);
  }

  /** Processed after `n`, `c` also has what the object with the empty name adds. */
  lemma ProcessedAfter(level: Level, rank: map<string, nat>, n: string, c: string, order: seq<string>, k: string)
    requires Ranked(level, rank) && AllResolvable(level) && forall x | x in order :: IsObject(level, x)
    requires IsObject(level, c) && EmptyLinked(level, n) && c != n && n in Chain(level, rank, c)
    requires k in Effective(level, rank, "")
    ensures forall x | x in [n] + ([c] + order) :: IsObject(level, x)
    ensures ProcessAll(level, rank, [n] + ([c] + order)).Returned?
    ensures var end := ProcessAll(level, rank, [n] + ([c] + order)).value;
      c in end && end[c].Object? && k in end[c].attrs
  {
    var next := EmptyLinkFirst(level, rank, n);
    ChainRanks(level, rank, c, n);
    ChainSurvives(level, rank, next, n, c);
    ChainRanks(next, rank, c, n);
    ChainInherits(next, rank, n, c, k);
    ProcessedFirst(next, rank, c, order);
    ProcessAllFirst(level, rank, n, [c] + order);
  }

  // ------------------------------------------------------------- exactly when

  /** All orders end the same: in a panic, or in the same level. */
  ghost predicate Independent(level: Level, rank: map<string, nat>)
    requires Ranked(level, rank)
  {
    forall order: seq<string>, other: seq<string> | Covers(level, order) && Covers(level, other) ::
      ProcessAll(level, rank, order) == ProcessAll(level, rank, other)
  }

  ghost predicate SomeDoomed(level: Level, rank: map<string, nat>)
    requires Ranked(level, rank)
  {
    exists n :: Doomed(level, rank, n)
  }

  lemma DoomedIsIndependent(level: Level, rank: map<string, nat>)
    requires Ranked(level, rank) && SomeDoomed(level, rank)
    ensures forall order: seq<string> | Covers(level, order) :: ProcessAll(level, rank, order).Panicked?
  {
    var n :| Doomed(level, rank, n);
    forall order: seq<string> | Covers(level, order)
      ensures ProcessAll(level, rank, order).Panicked?
    {
      DoomedPanics(level, rank, level, n, order);
    }
  }

  lemma UnresolvableDepends(level: Level, rank: map<string, nat>)
    requires Ranked(level, rank) && !SomeDoomed(level, rank) && !AllResolvable(level)
    ensures !Independent(level, rank)
  {
    var order := SomeOrderReturns(level, rank);
    var n :| Linked(level, n) && !Resolvable(level, n);
    var rest := CoverFrom(level, [n]);
    var other := [n] + rest;
    assert ProcessOne(level, rank, other[0]).Panicked?;
    assert ProcessAll(level, rank, other).Panicked?;
  }

  lemma OrderWithout(level: Level, rank: map<string, nat>, c: string, k: string) returns (order: seq<string>)
    requires Ranked(level, rank) && AllResolvable(level) && IsObject(level, c) && LinkOf(level, c).To?
    requires k !in Effective(level, rank, c)
    ensures Covers(level, order) && ProcessAll(level, rank, order).Returned?
    ensures var end := ProcessAll(level, rank, order).value; c in end && end[c].Object? && k !in end[c].attrs
  {
    var rest := CoverFrom(level, [c]);
    assert forall x | x in rest :: x in [c] + rest;
    ProcessedFirst(level, rank, c, rest);
    order := [c] + rest;
  }

  lemma OrderWith(level: Level, rank: map<string, nat>, n: string, c: string, k: string) returns (order: seq<string>)
    requires Ranked(level, rank) && AllResolvable(level) && IsObject(level, c)
    requires EmptyLinked(level, n) && c != n && n in Chain(level, rank, c) && k in Effective(level, rank, "")
    ensures Covers(level, order) && ProcessAll(level, rank, order).Returned?
    ensures var end := ProcessAll(level, rank, order).value; c in end && end[c].Object? && k in end[c].attrs
  {
    var rest := CoverFrom(level, [n, c]);
    order := [n] + ([c] + rest);
    assert order == [n, c] + rest;
    assert forall x | x in rest :: x in order;
    ProcessedAfter(level, rank, n, c, rest, k);
  }

  lemma HarmfulDepends(level: Level, rank: map<string, nat>)
    requires Ranked(level, rank) && AllResolvable(level) && !EmptyNameHarmless(level, rank)
    ensures !Independent(level, rank)
  {
    var c, n :| IsObject(level, c) && EmptyLinked(level, n) && c != n && n in Chain(level, rank, c)
      && !(Effective(level, rank, "").Keys <= Effective(level, rank, c).Keys);
    var k :| k in Effective(level, rank, "") && k !in Effective(level, rank, c);
    ChainRanks(level, rank, c, n);
    var order := OrderWithout(level, rank, c, k);
    var other := OrderWith(level, rank, n, c, k);
    assert ProcessAll(level, rank, order) != ProcessAll(level, rank, other);
  }

  /** Exactly when the outcome does not depend on the order: some object makes every order
      panic, or every link resolves and the object with the empty name, if there is one, adds
      nothing to those that inherit from objects naming it. And exactly in the second case
      every order ends in the flattened level. */
  lemma OrderIndependence(level: Level, rank: map<string, nat>)
    requires Ranked(level, rank)
    ensures Independent(level, rank) <==>
      SomeDoomed(level, rank) || (AllResolvable(level) && EmptyNameHarmless(level, rank))
    ensures
      (forall order: seq<string> | Covers(level, order) ::
        ProcessAll(level, rank, order) == Returned(Flat(level, rank)))
      <==> AllResolvable(level) && EmptyNameHarmless(level, rank)
    ensures (forall order: seq<string> | Covers(level, order) :: ProcessAll(level, rank, order).Panicked?)
      <==> SomeDoomed(level, rank)
  {
    var some := SomeCover(level);
    if SomeDoomed(level, rank) {
      DoomedIsIndependent(level, rank);
      assert ProcessAll(level, rank, some).Panicked?;
    } else if !AllResolvable(level) {
      UnresolvableDepends(level, rank);
      var order := SomeOrderReturns(level, rank);
    } else {
      ResolvableReturns(level, rank, some);
      if EmptyNameHarmless(level, rank) {
        forall order: seq<string> | Covers(level, order)
          ensures ProcessAll(level, rank, order) == Returned(Flat(level, rank))
        {
          AnyOrderFlattens(level, rank, order);
        }
      } else {
        HarmfulDepends(level, rank);
      }
    }
  }

  // ------------------------------------------------------------- an object that is not visited

  /** An order of all objects but one, if that is an object. */
  ghost predicate CoversBut(level: Level, order: seq<string>, skip: string) {
    && Distinct(order)
    && (forall n | n in order :: IsObject(level, n) && n != skip)
    && (forall n | IsObject(level, n) && n != skip :: n in order)
  }

  /** All links that are followed resolve, and the one that is not lets others through. */
  ghost predicate ResolvableBut(level: Level, skip: string) {
    && (forall n | Linked(level, n) && n != skip :: Resolvable(level, n))
    && (IsObject(level, skip) ==> !LinkOf(level, skip).Bad?)
  }

  /** The flattened level, but for an object that nobody visits and nobody inherits through. */
  ghost function FlatBut(level: Level, rank: map<string, nat>, skip: string): Level
    requires Ranked(level, rank)
  {
    if skip in level && !Taken(level, rank, skip) then Flat(level, rank)[skip := level[skip]] else Flat(level, rank)
  }

  lemma {:induction false} SkippedStays(level: Level, rank: map<string, nat>, now: Level, n: string, order: seq<string>)
    requires Ranked(level, rank) && Reworked(level, rank, now) && Ranked(now, rank)
    requires IsObject(level, n) && !Taken(level, rank, n) && now[n] == level[n]
    requires (forall x | x in order :: IsObject(now, x) && x != n) && ProcessAll(now, rank, order).Returned?
    ensures n in ProcessAll(now, rank, order).value && ProcessAll(now, rank, order).value[n] == level[n]
    decreases |order|
  {
    if order != [] {
      var m := order[0];
      NotTakenStays(level, rank, now, n, m);
      ProcessOneKeepsShape(now, rank, m);
      StepReworks(level, rank, now, m);
      assert forall x | x in order[1..] :: x in order;
      SkippedStays(level, rank, ProcessOne(now, rank, m).value, n, order[1..]);
    }
  }

  lemma SkippedIsTaken(level: Level, rank: map<string, nat>, order: seq<string>, skip: string)
    requires Ranked(level, rank) && CoversBut(level, order, skip) && ProcessAll(level, rank, order).Returned?
    requires Taken(level, rank, skip)
    ensures !Linked(ProcessAll(level, rank, order).value, skip)
  {
    var c, b :| NamesBase(level, c, b) && Resolvable(level, c) && skip in Chain(level, rank, b);
    ChainRanks(level, rank, b, skip);
    RunReworks(level, rank, level, order);
    RunCloses(level, rank, level, order);
    assert c in order;
    ClosedChain(level, rank, ProcessAll(level, rank, order).value, b, skip);
  }

  lemma SkippingReturns(level: Level, rank: map<string, nat>, order: seq<string>, skip: string)
    requires Ranked(level, rank) && ResolvableBut(level, skip)
    requires forall n | n in order :: IsObject(level, n) && n != skip
    ensures ProcessAll(level, rank, order).Returned?
  {
    assert NoBadLink(level) by {
      assert forall n | IsObject(level, n) && LinkOf(level, n).Bad? :: Linked(level, n);
    }
    RunReturns(level, rank, level, order);
  }

  /** Every order of all objects but one ends the same: that one is flattened exactly when
      others inherit through it. */
  lemma SkippingFlattens(level: Level, rank: map<string, nat>, order: seq<string>, skip: string)
    requires Ranked(level, rank) && ResolvableBut(level, skip) && EmptyNameHarmless(level, rank)
    requires CoversBut(level, order, skip)
    ensures ProcessAll(level, rank, order) == Returned(FlatBut(level, rank, skip))
  {
    SkippingReturns(level, rank, order, skip);
    RunReworks(level, rank, level, order);
    var end := ProcessAll(level, rank, order).value;
    forall n | n in level
      ensures end[n] == FlatBut(level, rank, skip)[n]
    {
      if level[n].Object? {
        if n != skip {
          assert n in order;
          EndsFlat(level, rank, end, n);
        } else if Taken(level, rank, skip) {
          SkippedIsTaken(level, rank, order, skip);
          EndsFlat(level, rank, end, n);
        } else {
          SkippedStays(level, rank, level, skip, order);
        }
      }
    }
    assert end == FlatBut(level, rank, skip);
  }

  const DANGLING: Level := map["a" := Object(map[BASE := Str("x")]), "b" := Object(map[BASE := Str("a")])]

  /** A base that does not exist: processed first, "a" panics; processed after "b", which
      flattens it on the way and takes the missing base for an empty one, it does not. */
  lemma MissingBaseDependsOnOrder()
    ensures var rank := map["a" := 0, "b" := 1];
      && Ranked(DANGLING, rank)
      && Covers(DANGLING, ["a", "b"]) && ProcessAll(DANGLING, rank, ["a", "b"]).Panicked?
      && Covers(DANGLING, ["b", "a"]) && ProcessAll(DANGLING, rank, ["b", "a"]).Returned?
  {
  }

  const EMPTY_NAME: Level := map[
    "" := Object(map["k" := Null]),
    "a" := Object(map[BASE := Str("")]),
    "b" := Object(map[BASE := Str("a")])]

  const EMPTY_NAME_RANK: map<string, nat> := map["" := 0, "a" := 1, "b" := 2]

  /** An object named by the empty string: "b" inherits "k" through "a" when "a" is processed
      first, and does not when "b" is. */
  lemma EmptyNameDependsOnOrder()
    ensures Ranked(EMPTY_NAME, EMPTY_NAME_RANK) && AllResolvable(EMPTY_NAME)
    ensures Covers(EMPTY_NAME, ["a", "b", ""])
    ensures var early := ProcessAll(EMPTY_NAME, EMPTY_NAME_RANK, ["a", "b", ""]);
      early.Returned? && IsObject(early.value, "b") && "k" in early.value["b"].attrs
    ensures Covers(EMPTY_NAME, ["b", "a", ""])
    ensures var late := ProcessAll(EMPTY_NAME, EMPTY_NAME_RANK, ["b", "a", ""]);
      late.Returned? && IsObject(late.value, "b") && "k" !in late.value["b"].attrs
  {
    EmptyNameEarly();
    EmptyNameLate();
  }

  lemma EmptyNameEarly()
    ensures Ranked(EMPTY_NAME, EMPTY_NAME_RANK)
    ensures Covers(EMPTY_NAME, ["a", "b", ""])
    ensures var early := ProcessAll(EMPTY_NAME, EMPTY_NAME_RANK, ["a", "b", ""]);
      early.Returned? && IsObject(early.value, "b") && "k" in early.value["b"].attrs
  {
  }

  lemma EmptyNameLate()
    ensures Ranked(EMPTY_NAME, EMPTY_NAME_RANK)
    ensures Covers(EMPTY_NAME, ["b", "a", ""])
    ensures var late := ProcessAll(EMPTY_NAME, EMPTY_NAME_RANK, ["b", "a", ""]);
      late.Returned? && IsObject(late.value, "b") && "k" !in late.value["b"].attrs
  {
  }
}
