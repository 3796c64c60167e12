/** The physical domains of a mesh and the tags that belong to them: a
    domain is named by its name and dimension, and a domain-tags table maps
    each domain to a list of tags. Merging one table into another extends
    the tags of the domains already there and adds the others. */
module HelperType {

  /** `Domain(name, dim)`: a value, equal exactly when name and dim are. */
  datatype Domain = Domain(name: string, dim: int)

  /** A `DomainTags` dictionary, updated in place; each list of tags is held
      as its contents. */
  class DomainTags {
    var tags: map<Domain, seq<int>>

    constructor (tags: map<Domain, seq<int>>)
      ensures this.tags == tags
    {
      this.tags := tags;
    }

    /** `update_domain_tags(self, add)`: every domain of add is added; one
        already present has its tags extended by the added ones. */
    method UpdateDomainTags(add: map<Domain, seq<int>>)
      modifies this
      ensures tags == Update(old(tags), add)
    {
      ghost var start := tags;
      var remaining := add.Keys;
      ghost var done: set<Domain> := {};
      RestrictBounds(start, add);
      while remaining != {}
        invariant remaining + done == add.Keys && remaining !! done
        invariant tags == Update(start, Restrict(add, done))
        decreases remaining
      {
        var d :| d in remaining;
        RestrictStep(start, add, done, d);
        UpdateOne(tags, d, add[d]);
        if d in tags {
          tags := tags[d := tags[d] + add[d]];
        } else {
          tags := tags[d := add[d]];
        }
        done := done + {d};
        remaining := remaining - {d};
      }
    }
  }

  /** The contents of `update_domain_tags(m, a)` on values: a domain in both
      gets m's tags followed by a's, any other keeps the tags it has. */
  function Update(m: map<Domain, seq<int>>, a: map<Domain, seq<int>>): map<Domain, seq<int>>
  {
    map d | d in m.Keys + a.Keys :: Merged(m, a, d)
  }

  /** The tags of domain d after the merge: m's followed by a's. */
  function Merged(m: map<Domain, seq<int>>, a: map<Domain, seq<int>>, d: Domain): seq<int>
  {
    if d in m && d in a then m[d] + a[d] else if d in m then m[d] else if d in a then a[d] else []
  }

  /** The key set is the union; a domain in both gets m's tags followed by
      a's, a domain in one of them keeps its tags. */
  lemma UpdateSpec(m: map<Domain, seq<int>>, a: map<Domain, seq<int>>)
    ensures Update(m, a).Keys == m.Keys + a.Keys
    ensures forall d :: d in m && d in a ==> Update(m, a)[d] == m[d] + a[d]
    ensures forall d :: d in m && d !in a ==> Update(m, a)[d] == m[d]
    ensures forall d :: d !in m && d in a ==> Update(m, a)[d] == a[d]
  {
  }

  /** Updating with a single domain d: extend its tags when present,
      otherwise add them. */
  lemma UpdateOne(m: map<Domain, seq<int>>, d: Domain, xs: seq<int>)
    ensures Update(m, map[d := xs]) == if d in m then m[d := m[d] + xs] else m[d := xs]
  {
    UpdateSpec(m, map[d := xs]);
  }

  /** Adding nothing changes nothing; adding to an empty table gives the
      added table. */
  lemma UpdateEmpty(m: map<Domain, seq<int>>)
    ensures Update(m, map[]) == m && Update(map[], m) == m
  {
    assert Update(m, map[]).Keys == m.Keys;
    assert Update(map[], m).Keys == m.Keys;
  }

  /** Two updates in a row are one update with the two additions merged. */
  lemma UpdateTwice(m: map<Domain, seq<int>>, a: map<Domain, seq<int>>, b: map<Domain, seq<int>>)
    ensures Update(Update(m, a), b) == Update(m, Update(a, b))
  {
    var ma, ab := Update(m, a), Update(a, b);
    var lhs, rhs := Update(ma, b), Update(m, ab);
    assert lhs.Keys == rhs.Keys;
    forall d | d in lhs
      ensures lhs[d] == rhs[d]
    {
      UpdateTwiceAt(m, a, b, d);
    }
  }

  /** UpdateTwice at one domain. */
  lemma UpdateTwiceAt(m: map<Domain, seq<int>>, a: map<Domain, seq<int>>, b: map<Domain, seq<int>>, d: Domain)
    requires d in m || d in a || d in b
    ensures Update(Update(m, a), b)[d] == Update(m, Update(a, b))[d]
  {
    var ma, ab := Update(m, a), Update(a, b);
    if d in m && d in a && d in b {
      assert ma[d] == m[d] + a[d] && ab[d] == a[d] + b[d];
      assert m[d] + a[d] + b[d] == m[d] + (a[d] + b[d]);
    }
  }

  /** The entries of a whose domains are in done. */
  function Restrict(a: map<Domain, seq<int>>, done: set<Domain>): (r: map<Domain, seq<int>>)
    ensures r.Keys == a.Keys * done
  {
    map d | d in a.Keys * done :: a[d]
  }

  /** Restricted to nothing, a adds nothing; restricted to all its domains,
      it is itself. */
  lemma RestrictBounds(m: map<Domain, seq<int>>, a: map<Domain, seq<int>>)
    ensures Update(m, Restrict(a, {})) == m && Restrict(a, a.Keys) == a
  {
    assert Restrict(a, {}) == map[];
    UpdateEmpty(m);
  }

  /** Merging the tags of one more domain d of a. */
  lemma RestrictStep(m: map<Domain, seq<int>>, a: map<Domain, seq<int>>, done: set<Domain>, d: Domain)
    requires d in a && d !in done
    ensures Update(Update(m, Restrict(a, done)), map[d := a[d]]) == Update(m, Restrict(a, done + {d}))
  {
    UpdateTwice(m, Restrict(a, done), map[d := a[d]]);
    RestrictAdd(a, done, d);
  }

  /** Restricting to one more domain d adds d's entry. */
  lemma RestrictAdd(a: map<Domain, seq<int>>, done: set<Domain>, d: Domain)
    requires d in a && d !in done
    ensures Update(Restrict(a, done), map[d := a[d]]) == Restrict(a, done + {d})
  {
    var r, r2 := Restrict(a, done), Restrict(a, done + {d});
    UpdateOne(r, d, a[d]);
    assert r[d := a[d]] == r2;
  }
}
