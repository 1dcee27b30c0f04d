/** The lookup of an address in a table of address ranges: getIPCountryIPInfo of
    netutils/ipregion.go, with the binary search of sort.Search. */
module IpRegion {
  import opened Outcomes

  datatype Range = Range(from: nat, to: nat, country: nat)

  predicate Holds(r: Range, ip: nat) {
    r.from <= ip <= r.to
  }

  /** What the search asks of an entry. */
  predicate NotBelow(r: Range, ip: nat) {
    r.from >= ip || r.to >= ip
  }

  /** The entries that answer the search come last. */
  ghost predicate Searchable(table: seq<Range>, ip: nat) {
    forall i, j | 0 <= i < j < |table| && NotBelow(table[i], ip) :: NotBelow(table[j], ip)
  }

  /** Ranges that are not empty, and do not meet, in ascending order. */
  ghost predicate Ordered(table: seq<Range>) {
    && (forall i | 0 <= i < |table| :: table[i].from <= table[i].to)
    && forall i, j | 0 <= i < j < |table| :: table[i].to < table[j].from
  }

  /** sort.Search: ends on the boundary between entries that fail and entries that answer,
      and on the first that answers when those come last. */
  method Search(table: seq<Range>, ip: nat) returns (n: nat)
    ensures n <= |table|
    ensures n > 0 ==> !NotBelow(table[n - 1], ip)
    ensures n < |table| ==> NotBelow(table[n], ip)
    ensures Searchable(table, ip) ==> forall i | 0 <= i < |table| :: NotBelow(table[i], ip) <==> n <= i
  {
    var i, j := 0, |table|;
    while i < j
      invariant 0 <= i <= j <= |table|
      invariant i > 0 ==> !NotBelow(table[i - 1], ip)
      invariant j < |table| ==> NotBelow(table[j], ip)
      decreases j - i
    {
      var h := (i + j) / 2;
      if !NotBelow(table[h], ip) {
        i := h + 1;
      } else {
        j := h;
      }
    }
    n := i;
  }

  /** The entry for an address that parsed, if any. Whatever it returns holds the address; on
      an ordered table it finds the only entry that does whenever there is one. */
  method Lookup(table: seq<Range>, ip: Option<nat>) returns (r: Option<nat>)
    ensures r.Some? ==> ip.Some? && r.value < |table| && Holds(table[r.value], ip.value)
    ensures Ordered(table) && ip.Some? ==>
      forall k: nat | k < |table| :: Holds(table[k], ip.value) <==> r == Some(k)
  {
    if ip.None? {
      return None;
    }
    var n := Search(table, ip.value);
    if n == |table| || table[n].from > ip.value || table[n].to < ip.value {
      r := None;
    } else {
      r := Some(n);
    }
  }
}
