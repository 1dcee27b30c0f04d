/** Configuration inheritance: inheritObj and processMapTree in common/map.go, for one level
    of named objects with scalar attributes. An object names its base under
    `__base_obj_name__`; resolving it copies what the object does not define itself and drops
    the link, in place, and flattens every ancestor on the way. */
module ConfigInheritance {
  import opened Outcomes

  datatype Scalar = Str(s: string) | Num(n: real) | Flag(b: bool) | Null

  type Attrs = map<string, Scalar>

  datatype Entry = Leaf(value: Scalar) | Object(attrs: Attrs)

  /** The map whose entries are the objects (and plain values) an object can name as base. */
  type Level = map<string, Entry>

  const BASE := "__base_obj_name__"
  const NAME := "__name__"

  predicate IsObject(level: Level, n: string) {
    n in level && level[n].Object?
  }

  function Own(level: Level, n: string): Attrs
    requires IsObject(level, n)
  {
    level[n].attrs - {BASE}
  }

  /** How inheritObj reads the link of an object it inherits from. An empty name is ignored
      and a name that does not exist stands for an object without attributes; a name that
      is no string, or that names a plain value, panics. */
  datatype Link = End | Missing | To(base: string) | Bad

  function LinkOf(level: Level, n: string): Link
    requires IsObject(level, n)
  {
    var attrs := level[n].attrs;
    if BASE !in attrs then End
    else if !attrs[BASE].Str? then Bad
    else if attrs[BASE].s == "" then End
    else if attrs[BASE].s !in level then Missing
    else if level[attrs[BASE].s].Leaf? then Bad
    else To(attrs[BASE].s)
  }

  predicate NamesBase(level: Level, n: string, b: string) {
    IsObject(level, n) && BASE in level[n].attrs && level[n].attrs[BASE] == Str(b) && IsObject(level, b)
  }

  /** The base relation is acyclic, as witnessed by `rank`. */
  ghost predicate Ranked(level: Level, rank: map<string, nat>) {
    && (forall n | IsObject(level, n) :: n in rank)
    && (forall n, b | NamesBase(level, n, b) :: rank[b] < rank[n])
  }

  // ------------------------------------------------------------- reference meaning

  /** No link on the base chain of `n` makes inheritObj panic. */
  ghost predicate Sound(level: Level, rank: map<string, nat>, n: string)
    requires Ranked(level, rank) && IsObject(level, n)
    decreases rank[n]
  {
    match LinkOf(level, n)
    case Bad => false
    case To(b) => assert NamesBase(level, n, b); Sound(level, rank, b)
    case _ => true
  }

  /** The base chain of `n`, starting with `n`. */
  ghost function Chain(level: Level, rank: map<string, nat>, n: string): seq<string>
    requires Ranked(level, rank) && IsObject(level, n)
    decreases rank[n]
  {
    match LinkOf(level, n)
    case To(b) => assert NamesBase(level, n, b); [n] + Chain(level, rank, b)
    case _ => [n]
  }

  /** The attributes `n` stands for: its own, then those of its base. */
  ghost function Effective(level: Level, rank: map<string, nat>, n: string): (r: Attrs)
    requires Ranked(level, rank) && IsObject(level, n)
    ensures BASE !in r
    decreases rank[n]
  {
    match LinkOf(level, n)
    case To(b) => assert NamesBase(level, n, b); Effective(level, rank, b) + Own(level, n)
    case _ => Own(level, n)
  }

  /** The chain follows the links from `n` until an object that inherits from none. */
  lemma {:induction false} ChainFollowsLinks(level: Level, rank: map<string, nat>, n: string)
    requires Ranked(level, rank) && IsObject(level, n)
    ensures var chain := Chain(level, rank, n);
      && chain != [] && chain[0] == n
      && (forall j | 0 <= j < |chain| :: IsObject(level, chain[j]))
      && (forall j | 0 <= j < |chain| - 1 :: NamesBase(level, chain[j], chain[j + 1]))
      && !LinkOf(level, chain[|chain| - 1]).To?
    decreases rank[n]
  {
    match LinkOf(level, n) {
      case To(b) =>
        assert NamesBase(level, n, b);
        ChainFollowsLinks(level, rank, b);
        var rest := Chain(level, rank, b);
        assert Chain(level, rank, n) == [n] + rest;
      case _ =>
    }
  }

  /** The i-th object of the chain defines `k`, and none before it does. */
  ghost predicate NearestDefines(level: Level, chain: seq<string>, i: nat, k: string) {
    && i < |chain| && IsObject(level, chain[i]) && k in Own(level, chain[i])
    && forall j: nat | j < i :: IsObject(level, chain[j]) && k !in Own(level, chain[j])
  }

  lemma NearestShifts(level: Level, n: string, rest: seq<string>, i: nat, k: string)
    requires IsObject(level, n) && k !in Own(level, n)
    ensures NearestDefines(level, [n] + rest, i + 1, k) <==> NearestDefines(level, rest, i, k)
    ensures !NearestDefines(level, [n] + rest, 0, k)
  {
    var chain := [n] + rest;
    if NearestDefines(level, chain, i + 1, k) {
      forall j: nat | j < i
        ensures IsObject(level, rest[j]) && k !in Own(level, rest[j])
      {
        assert chain[j + 1] == rest[j];
      }
    }
    if NearestDefines(level, rest, i, k) {
      forall j: nat | j < i + 1
        ensures IsObject(level, chain[j]) && k !in Own(level, chain[j])
      {
        assert j > 0 ==> chain[j] == rest[j - 1];
      }
    }
  }

  /** An object has an attribute when some object on its chain defines it, and its value is
      the one the nearest such object gives it: own attributes win. */
  lemma {:induction false} EffectiveIsNearest(level: Level, rank: map<string, nat>, n: string, k: string)
    requires Ranked(level, rank) && IsObject(level, n)
    ensures k in Effective(level, rank, n) <==> exists i: nat :: NearestDefines(level, Chain(level, rank, n), i, k)
    ensures forall i: nat | NearestDefines(level, Chain(level, rank, n), i, k) ::
      k in Effective(level, rank, n) && Effective(level, rank, n)[k] == Own(level, Chain(level, rank, n)[i])[k]
    decreases rank[n]
  {
    var chain := Chain(level, rank, n);
    ChainFollowsLinks(level, rank, n);
    if k in Own(level, n) {
      assert NearestDefines(level, chain, 0, k);
      assert forall i: nat | NearestDefines(level, chain, i, k) :: i == 0;
    } else if LinkOf(level, n).To? {
      var b := LinkOf(level, n).base;
      assert NamesBase(level, n, b);
      EffectiveIsNearest(level, rank, b, k);
      var rest := Chain(level, rank, b);
      assert chain == [n] + rest;
      forall i: nat | NearestDefines(level, chain, i, k)
        ensures i > 0 && NearestDefines(level, rest, i - 1, k)
      {
        NearestShifts(level, n, rest, if i > 0 then i - 1 else 0, k);
      }
      if i: nat :| NearestDefines(level, rest, i, k) {
        NearestShifts(level, n, rest, i, k);
      }
    }
  }

  // ------------------------------------------------------------- what the code computes

  function Fill(base: Attrs, m: Attrs): Attrs {
    (base + m) - {BASE}
  }

  function SetAttrs(level: Level, n: string, attrs: Attrs): Level {
    level[n := Object(attrs)]
  }

  /** inheritObj(base, m): the base, None for a nil map, first resolves its own link. */
  ghost function Inherit(level: Level, rank: map<string, nat>, base: Option<string>, m: string): Result<Level>
    requires Ranked(level, rank) && IsObject(level, m)
    requires base.Some? ==> IsObject(level, base.value) && rank[base.value] < rank[m]
    decreases if base.Some? then 1 + rank[base.value] else 0
  {
    if base.None? then Returned(SetAttrs(level, m, Own(level, m)))
    else
      var b := base.value;
      match LinkOf(level, b)
      case Bad => Panicked
      case End => Returned(SetAttrs(level, m, Fill(level[b].attrs, level[m].attrs)))
      case Missing => CopyFrom(Inherit(level, rank, None, b), b, m)
      case To(s) => assert NamesBase(level, b, s); CopyFrom(Inherit(level, rank, Some(s), b), b, m)
  }

  function CopyFrom(r: Result<Level>, b: string, m: string): Result<Level> {
    if r.Returned? && IsObject(r.value, b) && IsObject(r.value, m)
    then Returned(SetAttrs(r.value, m, Fill(r.value[b].attrs, r.value[m].attrs)))
    else Panicked
  }

  /** processMapTree on one object: unlike inheritObj it looks the base up among the object's
      own attributes first (which here are no objects, so that a hit panics), panics when
      the base is missing, and takes an empty name for a name like any other. */
  ghost function ProcessOne(level: Level, rank: map<string, nat>, n: string): Result<Level>
    requires Ranked(level, rank) && IsObject(level, n)
  {
    var attrs := level[n].attrs;
    if BASE !in attrs then Returned(level)
    else if !Resolvable(level, n) then Panicked
    else assert NamesBase(level, n, attrs[BASE].s); Inherit(level, rank, Some(attrs[BASE].s), n)
  }

  predicate Resolvable(level: Level, n: string)
    requires IsObject(level, n) && BASE in level[n].attrs
  {
    var attrs := level[n].attrs;
    attrs[BASE].Str? && attrs[BASE].s !in attrs && IsObject(level, attrs[BASE].s)
  }

  /** Processing objects one after the other. */
  ghost function ProcessAll(level: Level, rank: map<string, nat>, order: seq<string>): Result<Level>
    requires Ranked(level, rank) && forall n | n in order :: IsObject(level, n)
    decreases |order|
  {
    if order == [] then Returned(level)
    else
      var r := ProcessOne(level, rank, order[0]);
      if r.Panicked? then Panicked
      else
        ProcessOneKeepsShape(level, rank, order[0]);
        assert forall n | n in order[1..] :: n in order;
        ProcessAll(r.value, rank, order[1..])
  }

  // ------------------------------------------------------------- compression keeps meaning

  /** `n` was flattened between the two levels. */
  ghost predicate Flattened(level: Level, rank: map<string, nat>, next: Level, n: string)
    requires Ranked(level, rank) && IsObject(level, n) && n in next
  {
    && (LinkOf(level, n).To? || LinkOf(level, n).Missing?)
    && Sound(level, rank, n)
    && next[n] == Object(Effective(level, rank, n))
  }

  /** Every entry is as it was or, an object, flattened. */
  ghost predicate Compressed(level: Level, rank: map<string, nat>, next: Level)
    requires Ranked(level, rank)
  {
    && next.Keys == level.Keys
    && forall n | n in level :: next[n] == level[n] || (level[n].Object? && Flattened(level, rank, next, n))
  }

  lemma CompressedIsRanked(level: Level, rank: map<string, nat>, next: Level)
    requires Ranked(level, rank) && Compressed(level, rank, next)
    ensures Ranked(next, rank)
    ensures forall n :: IsObject(next, n) <==> IsObject(level, n)
  {
  }

  /** Flattening ancestors in place never changes what any object resolves to. */
  lemma {:induction false} CompressionKeepsMeaning(level: Level, rank: map<string, nat>, next: Level, n: string)
    requires Ranked(level, rank) && Compressed(level, rank, next) && IsObject(level, n)
    ensures Ranked(next, rank) && IsObject(next, n)
    ensures Effective(next, rank, n) == Effective(level, rank, n)
    ensures Sound(next, rank, n) <==> Sound(level, rank, n)
    decreases rank[n]
  {
    CompressedIsRanked(level, rank, next);
    if next[n] == level[n] {
      assert LinkOf(next, n) == LinkOf(level, n);
      match LinkOf(level, n) {
        case To(b) =>
          assert NamesBase(level, n, b) && NamesBase(next, n, b);
          CompressionKeepsMeaning(level, rank, next, b);
        case _ =>
      }
    } else {
      assert LinkOf(next, n) == End;
      assert Own(next, n) == Effective(level, rank, n);
    }
  }

  ghost function BaseAttrs(level: Level, rank: map<string, nat>, base: Option<string>): Attrs
    requires Ranked(level, rank) && (base.Some? ==> IsObject(level, base.value))
  {
    if base.None? then map[] else Effective(level, rank, base.value)
  }

  /** In `next`, `m` has no link and stands by itself for what it and its base stood for,
      every other object is as it was or flattened, and no object that ranks at least as
      high as `m` is touched. */
  ghost predicate InheritedInto(level: Level, rank: map<string, nat>, base: Option<string>, m: string, next: Level)
    requires Ranked(level, rank) && IsObject(level, m) && (base.Some? ==> IsObject(level, base.value))
  {
    && m in next
    && next[m] == Object(BaseAttrs(level, rank, base) + Own(level, m))
    && Compressed(level, rank, next[m := level[m]])
    && forall n | n in level && n != m && (level[n].Object? ==> rank[n] >= rank[m]) :: next[n] == level[n]
  }

  /** inheritObj panics exactly when the chain of its base is not sound, and otherwise the
      object has inherited what its base stands for. */
  lemma {:induction false} InheritMeaning(level: Level, rank: map<string, nat>, base: Option<string>, m: string)
    requires Ranked(level, rank) && IsObject(level, m)
    requires base.Some? ==> IsObject(level, base.value) && rank[base.value] < rank[m]
    ensures var r := Inherit(level, rank, base, m);
      && (r.Returned? <==> base.None? || Sound(level, rank, base.value))
      && (r.Returned? ==> InheritedInto(level, rank, base, m, r.value))
    decreases if base.Some? then 1 + rank[base.value] else 0
  {
    if base.None? {
      assert SetAttrs(level, m, Own(level, m))[m := level[m]] == level;
    } else {
      var b := base.value;
      match LinkOf(level, b) {
        case Bad =>
        case End =>
          assert Fill(level[b].attrs, level[m].attrs) == Own(level, b) + Own(level, m);
          assert SetAttrs(level, m, Fill(level[b].attrs, level[m].attrs))[m := level[m]] == level;
        case Missing =>
          InheritMeaning(level, rank, None, b);
          CopyMeaning(level, rank, None, b, m, Inherit(level, rank, None, b).value);
        case To(s) =>
          assert NamesBase(level, b, s);
          InheritMeaning(level, rank, Some(s), b);
          if Sound(level, rank, s) {
            CopyMeaning(level, rank, Some(s), b, m, Inherit(level, rank, Some(s), b).value);
          }
      }
    }
  }

  /** The copy step, once the base `b` has resolved its own link to `s`. */
  lemma CopyMeaning(level: Level, rank: map<string, nat>, s: Option<string>, b: string, m: string, mid: Level)
    requires Ranked(level, rank) && IsObject(level, m) && IsObject(level, b) && rank[b] < rank[m]
    requires LinkOf(level, b) == if s.Some? then To(s.value) else Missing
    requires s.Some? ==> IsObject(level, s.value) && Sound(level, rank, s.value)
    requires InheritedInto(level, rank, s, b, mid)
    ensures var r := CopyFrom(Returned(mid), b, m);
      r.Returned? && InheritedInto(level, rank, Some(b), m, r.value)
  {
    if s.Some? {
      assert NamesBase(level, b, s.value);
    }
    assert Effective(level, rank, b) == BaseAttrs(level, rank, s) + Own(level, b);
    assert mid[m] == level[m];
    assert Fill(mid[b].attrs, mid[m].attrs) == Effective(level, rank, b) + Own(level, m);
    var next := SetAttrs(mid, m, Fill(mid[b].attrs, mid[m].attrs));
    assert next[m := level[m]] == mid;
    BaseFlattened(level, rank, b, mid);
  }

  /** An object that resolved its own link is a flattened one. */
  lemma BaseFlattened(level: Level, rank: map<string, nat>, b: string, mid: Level)
    requires Ranked(level, rank) && IsObject(level, b) && b in mid
    requires Flattened(level, rank, mid, b) && Compressed(level, rank, mid[b := level[b]])
    ensures Compressed(level, rank, mid)
  {
  }

  /** Processing an object returns exactly when it has no link, or one that names an object of
      the level with a sound chain and none of its own attributes. */
  lemma ProcessOneReturns(level: Level, rank: map<string, nat>, n: string)
    requires Ranked(level, rank) && IsObject(level, n)
    ensures ProcessOne(level, rank, n).Returned? <==>
      BASE in level[n].attrs ==> exists b :: NamesBase(level, n, b) && b !in level[n].attrs && Sound(level, rank, b)
  {
    if BASE in level[n].attrs && Resolvable(level, n) {
      var b := level[n].attrs[BASE].s;
      assert NamesBase(level, n, b);
      InheritMeaning(level, rank, Some(b), n);
    }
  }

  /** Processing an object leaves a ranked level with the same objects. */
  lemma ProcessOneKeepsShape(level: Level, rank: map<string, nat>, n: string)
    requires Ranked(level, rank) && IsObject(level, n)
    ensures var r := ProcessOne(level, rank, n);
      r.Returned? ==> Ranked(r.value, rank) && forall x :: IsObject(r.value, x) <==> IsObject(level, x)
  {
    var r := ProcessOne(level, rank, n);
    if r.Returned? && BASE in level[n].attrs {
      var b := level[n].attrs[BASE].s;
      assert NamesBase(level, n, b);
      InheritMeaning(level, rank, Some(b), n);
      var back := r.value[n := level[n]];
      CompressedIsRanked(level, rank, back);
      forall x, y | NamesBase(r.value, x, y)
        ensures rank[y] < rank[x]
      {
        assert x != n && NamesBase(back, x, y);
      }
    }
  }
}
