/** The union-find of `count_provinces` (exercises/hard/solutiont3/src/district.rs):
    cities are numbered as they are first met, each listed connection
    unites two cities, and the number of distinct representatives is the
    number of provinces. */
module District {

  /** Every entry points at an index no larger than its own, so following
      parents from any index ends at a self-parent (a root). */
  predicate Forest(p: seq<nat>)
  {
    forall i :: 0 <= i < |p| ==> p[i] <= i
  }

  /** The representative of x: the root reached by following parents. */
  function Root(p: seq<nat>, x: nat): (r: nat)
    requires Forest(p) && x < |p|
    ensures r <= p[x] && p[r] == r
    decreases x
  {
    if p[x] == x then x else Root(p, p[x])
  }

  /** The set of representatives. */
  function Roots(p: seq<nat>): set<nat>
    requires Forest(p)
  {
    set i | 0 <= i < |p| :: Root(p, i)
  }

  /** The representatives are exactly the self-parents. */
  lemma RootsAreSelfParents(p: seq<nat>)
    requires Forest(p)
    ensures Roots(p) == set r | 0 <= r < |p| && p[r] == r
  {
    forall r | 0 <= r < |p| && p[r] == r ensures r in Roots(p) {
      assert Root(p, r) == r;
    }
  }

  /** Pointing x straight at its representative changes no representative. */
  lemma {:induction false} CompressKeeps(p: seq<nat>, x: nat, i: nat)
    requires Forest(p) && x < |p| && i < |p|
    ensures Forest(p[x := Root(p, x)]) && Root(p[x := Root(p, x)], i) == Root(p, i)
    decreases i
  {
    var q := p[x := Root(p, x)];
    if p[i] != i {
      CompressKeeps(p, x, p[i]);
      if i == x {
        CompressKeeps(p, x, Root(p, x));
      }
    }
  }

  /** Making root a the parent of root b, a < b, moves b's set onto a and
      leaves every other representative alone. */
  lemma {:induction false} LinkKeeps(p: seq<nat>, a: nat, b: nat, i: nat)
    requires Forest(p) && a < b < |p| && p[a] == a && p[b] == b && i < |p|
    ensures Forest(p[b := a])
    ensures Root(p[b := a], i) == if Root(p, i) == b then a else Root(p, i)
    decreases i
  {
    if i == b {
      LinkKeeps(p, a, b, a);
    } else if p[i] != i {
      LinkKeeps(p, a, b, p[i]);
    }
  }

  /** A node appended as its own parent is a new singleton set. */
  lemma {:induction false} AddKeeps(p: seq<nat>, i: nat)
    requires Forest(p) && i < |p|
    ensures Forest(p + [|p|]) && Root(p + [|p|], i) == Root(p, i)
    decreases i
  {
    if p[i] != i {
      AddKeeps(p, p[i]);
    }
  }

  /** `DSU`: the parent vector. */
  class DisjointSets {
    var parent: seq<nat>

    ghost predicate Valid()
      reads this
    {
      Forest(parent)
    }

    /** `DSU::new`. */
    constructor ()
      ensures parent == [] && Valid()
    {
      parent := [];
    }

    /** `add(n)`: push n. The caller always pushes the next index, which
        makes the new element its own root (`AddKeeps`). */
    method Add(n: nat)
      modifies this
      ensures parent == old(parent) + [n]
    {
      parent := parent + [n];
    }

    /** `find(x)`: the representative of x, pointing every entry on the way
        straight at it. Only entries up to x change, each one only
        downwards and only to its representative, and no representative
        changes. */
    method Find(x: nat) returns (r: nat)
      requires Valid() && x < |parent|
      modifies this
      ensures Valid() && |parent| == |old(parent)|
      ensures r == Root(old(parent), x) && parent[x] == r
      ensures forall i :: 0 <= i < |parent| ==> Root(parent, i) == Root(old(parent), i)
      ensures forall i :: 0 <= i < |parent| ==> parent[i] <= old(parent)[i]
      ensures forall i :: 0 <= i < |parent| ==> parent[i] == old(parent)[i] || parent[i] == Root(parent, i)
      ensures forall i :: x < i < |parent| ==> parent[i] == old(parent)[i]
      decreases x
    {
      if parent[x] != x {
        ghost var p0 := parent;
        var up := Find(parent[x]);
        ghost var p1 := parent;
        assert p1[x] == p0[x];
        assert Root(p1, x) == up by {
          assert Root(p1, x) == Root(p1, p1[x]);
        }
        forall i | 0 <= i < |p1| ensures Root(p1[x := up], i) == Root(p1, i) {
          CompressKeeps(p1, x, i);
        }
        parent := parent[x := up];
      }
      r := parent[x];
    }

    /** `union(x, y)`: find both representatives and, when they differ,
        make the smaller one the parent of the larger. Afterwards x and y
        share a representative, the two sets are one, every other set is
        as before, and no two elements that shared a representative are
        separated. */
    method Union(x: nat, y: nat)
      requires Valid() && x < |parent| && y < |parent|
      modifies this
      ensures Valid() && |parent| == |old(parent)|
      ensures Root(parent, x) == Root(parent, y)
      ensures forall i :: 0 <= i < |parent| ==>
        var rx, ry, ri := Root(old(parent), x), Root(old(parent), y), Root(old(parent), i);
        Root(parent, i) == if ri == rx || ri == ry then (if rx < ry then rx else ry) else ri
    {
      ghost var p0 := parent;
      var rootX := Find(x);
      var rootY := Find(y);
      ghost var p1 := parent;
      assert forall i :: 0 <= i < |p1| ==> Root(p1, i) == Root(p0, i);
      if rootX != rootY {
        if rootX < rootY {
          forall i | 0 <= i < |p1| ensures Root(p1[rootY := rootX], i) == if Root(p1, i) == rootY then rootX else Root(p1, i) {
            LinkKeeps(p1, rootX, rootY, i);
          }
          parent := parent[rootY := rootX];
        } else {
          forall i | 0 <= i < |p1| ensures Root(p1[rootX := rootY], i) == if Root(p1, i) == rootX then rootY else Root(p1, i) {
            LinkKeeps(p1, rootY, rootX, i);
          }
          parent := parent[rootX := rootY];
        }
      }
    }

    /** `get_isolated_part`: run `find` on every index, then count the
        distinct parent entries, which by then are the representatives. */
    method GetIsolatedPart() returns (count: nat)
      requires Valid()
      modifies this
      ensures Valid() && |parent| == |old(parent)|
      ensures forall i :: 0 <= i < |parent| ==> Root(parent, i) == Root(old(parent), i)
      ensures count == |Roots(old(parent))|
    {
      for i := 0 to |parent|
        invariant Valid() && |parent| == |old(parent)|
        invariant forall j :: 0 <= j < |parent| ==> Root(parent, j) == Root(old(parent), j)
        invariant forall j :: 0 <= j < i ==> parent[j] == Root(parent, j)
      {
        var _ := Find(i);
      }
      var values := set j | 0 <= j < |parent| :: parent[j];
      assert values == Roots(parent);
      assert Roots(parent) == Roots(old(parent));
      count := |values|;
    }
  }

  // ---------------------------------------------------------------------
  // Provinces: number the cities and unite each listed connection.
  // ---------------------------------------------------------------------

  /** One province as the loop sees it: each city with the cities it lists. */
  type Adjacency = seq<(string, seq<string>)>

  /** The (city, listed city) pairs of one entry, in list order. */
  function PairsOf(city: string, listed: seq<string>): (ps: seq<(string, string)>)
    ensures |ps| == |listed| && forall i :: 0 <= i < |ps| ==> ps[i] == (city, listed[i])
  {
    seq(|listed|, i requires 0 <= i < |listed| => (city, listed[i]))
  }

  /** Every pair the loop unites, in order. */
  function Pairs(adjacency: Adjacency): seq<(string, string)>
  {
    if |adjacency| == 0 then []
    else
      var last := adjacency[|adjacency| - 1];
      Pairs(adjacency[..|adjacency| - 1]) + PairsOf(last.0, last.1)
  }

  /** Every city named, as an entry or in a list. */
  function Names(adjacency: Adjacency): set<string>
  {
    if |adjacency| == 0 then {}
    else
      var last := adjacency[|adjacency| - 1];
      Names(adjacency[..|adjacency| - 1]) + {last.0} + Listed(last.1)
  }

  /** A labelling of the cities that gives both cities of every pair the
      same tag. */
  ghost predicate Respects(tag: string -> nat, pairs: seq<(string, string)>)
  {
    forall i :: 0 <= i < |pairs| ==> tag(pairs[i].0) == tag(pairs[i].1)
  }

  /** a and b are connected: no labelling that respects the pairs tells them
      apart (the least equivalence containing the pairs). */
  ghost predicate Linked(pairs: seq<(string, string)>, a: string, b: string)
  {
    forall tag: string -> nat :: Respects(tag, pairs) ==> tag(a) == tag(b)
  }

  /** The connected component of a among the names. */
  ghost function Component(pairs: seq<(string, string)>, names: set<string>, a: string): set<string>
  {
    set b | b in names && Linked(pairs, a, b)
  }

  /** The number of provinces: connected components of the named cities. */
  ghost function ComponentCount(adjacency: Adjacency): nat
  {
    var names := Names(adjacency);
    |set a | a in names :: Component(Pairs(adjacency), names, a)|
  }

  /** The city numbering: `order[i]` is the city numbered i, so distinct
      cities get distinct numbers and the numbers are exactly
      0 .. |order| - 1. */
  ghost predicate Numbered(ids: map<string, nat>, order: seq<string>)
  {
    && (forall a :: a in ids ==> ids[a] < |order| && order[ids[a]] == a)
    && (forall i :: 0 <= i < |order| ==> order[i] in ids && ids[order[i]] == i)
  }

  /** Both cities of every united pair are numbered. */
  ghost predicate PairsNamed(pairs: seq<(string, string)>, ids: map<string, nat>)
  {
    forall i :: 0 <= i < |pairs| ==> pairs[i].0 in ids && pairs[i].1 in ids
  }

  /** The sets of the union-find are the connected components: two
      numbered cities share a representative exactly when they are linked
      by the pairs united so far. */
  ghost predicate Joined(p: seq<nat>, ids: map<string, nat>, order: seq<string>, pairs: seq<(string, string)>)
  {
    && Forest(p) && |order| == |p| && Numbered(ids, order) && PairsNamed(pairs, ids)
    && forall a, b :: a in ids && b in ids ==> (Root(p, ids[a]) == Root(p, ids[b]) <==> Linked(pairs, a, b))
  }

  /** Uniting the cities k and c, as `union` does on their numbers, links
      exactly the pair (k, c) in addition. */
  lemma UnionJoined(p: seq<nat>, q: seq<nat>, ids: map<string, nat>, order: seq<string>,
                    pairs: seq<(string, string)>, k: string, c: string)
    requires Joined(p, ids, order, pairs) && k in ids && c in ids
    requires Forest(q) && |q| == |p|
    requires forall i :: 0 <= i < |p| ==>
      var rx, ry, ri := Root(p, ids[k]), Root(p, ids[c]), Root(p, i);
      Root(q, i) == if ri == rx || ri == ry then (if rx < ry then rx else ry) else ri
    ensures Joined(q, ids, order, pairs + [(k, c)])
  {
    var more := pairs + [(k, c)];
    forall tag | Respects(tag, more) ensures Respects(tag, pairs) {
      assert forall i :: 0 <= i < |pairs| ==> more[i] == pairs[i];
    }
    forall a, b | a in ids && b in ids && Root(q, ids[a]) == Root(q, ids[b]) ensures Linked(more, a, b) {
      if Root(p, ids[a]) != Root(p, ids[b]) {
        forall tag | Respects(tag, more) ensures tag(a) == tag(b) {
          assert more[|pairs|] == (k, c);
          if Root(p, ids[a]) == Root(p, ids[k]) {
            assert Linked(pairs, a, k) && Linked(pairs, c, b);
          } else {
            assert Linked(pairs, a, c) && Linked(pairs, k, b);
          }
        }
      }
    }
    var tag := (x: string) => if Forest(q) && x in ids && ids[x] < |q| then Root(q, ids[x]) else 0;
    forall i | 0 <= i < |more| ensures tag(more[i].0) == tag(more[i].1) {
      if i < |pairs| {
        var u, v := pairs[i].0, pairs[i].1;
        assert Linked(pairs, u, v) by {
          forall l | Respects(l, pairs) ensures l(u) == l(v) {
          }
        }
      }
    }
    assert Respects(tag, more);
    forall a, b | a in ids && b in ids && Linked(more, a, b) ensures Root(q, ids[a]) == Root(q, ids[b]) {
      assert tag(a) == tag(b);
    }
  }

  /** Numbering a new city with the next number, its own root, keeps the
      sets equal to the components: the new city is linked to nothing. */
  lemma AddJoined(p: seq<nat>, ids: map<string, nat>, order: seq<string>, pairs: seq<(string, string)>, name: string)
    requires Joined(p, ids, order, pairs) && name !in ids
    ensures Joined(p + [|p|], ids[name := |p|], order + [name], pairs)
  {
    var q := p + [|p|];
    var ids' := ids[name := |p|];
    forall i | 0 <= i < |p| ensures Root(q, i) == Root(p, i) {
      AddKeeps(p, i);
    }
    assert Root(q, |p|) == |p|;
    var alone := (x: string) => if x == name then 1 else 0;
    assert Respects(alone, pairs);
    forall a, b | a in ids' && b in ids' ensures (Root(q, ids'[a]) == Root(q, ids'[b]) <==> Linked(pairs, a, b)) {
      if a != name && b != name {
        assert ids'[a] == ids[a] && ids'[b] == ids[b];
      } else if a != b {
        assert alone(a) != alone(b);
        var other := if a == name then b else a;
        assert ids'[other] == ids[other] < |p|;
      }
    }
  }

  /** The values f takes on s. */
  ghost function Image<T, U>(s: set<T>, f: T -> U): set<U>
  {
    set a | a in s :: f(a)
  }

  /** Images of one set under two maps that identify the same elements are
      equally large. */
  lemma {:induction false} SameKernel<T, U, V>(s: set<T>, f: T -> U, g: T -> V)
    requires forall a, b :: a in s && b in s ==> (f(a) == f(b) <==> g(a) == g(b))
    ensures |Image(s, f)| == |Image(s, g)|
    decreases s
  {
    if s != {} {
      var a :| a in s;
      var rest := set b | b in s && f(b) != f(a);
      assert a !in rest && rest < s;
      SameKernel(rest, f, g);
      assert Image(s, f) == Image(rest, f) + {f(a)};
      assert Image(s, g) == Image(rest, g) + {g(a)};
    }
  }

  /** The number of representatives is the number of components. */
  lemma RootsCountComponents(p: seq<nat>, ids: map<string, nat>, order: seq<string>, adjacency: Adjacency)
    requires Joined(p, ids, order, Pairs(adjacency)) && ids.Keys == Names(adjacency)
    ensures |Roots(p)| == ComponentCount(adjacency)
  {
    var pairs, names := Pairs(adjacency), Names(adjacency);
    var rep := (a: string) => if Forest(p) && a in ids && ids[a] < |p| then Root(p, ids[a]) else 0;
    var comp := (a: string) => Component(pairs, names, a);
    assert Roots(p) == Image(names, rep) by {
      forall i | 0 <= i < |p| ensures Root(p, i) in Image(names, rep) {
        assert rep(order[i]) == Root(p, i);
      }
    }
    forall a, b | a in names && b in names ensures (rep(a) == rep(b) <==> comp(a) == comp(b)) {
      SameComponent(pairs, names, a, b);
    }
    SameKernel(names, rep, comp);
    assert Image(names, comp) == set a | a in names :: Component(pairs, names, a);
  }

  /** Linked is an equivalence: two cities are linked exactly when they
      have the same component. */
  lemma SameComponent(pairs: seq<(string, string)>, names: set<string>, a: string, b: string)
    requires b in names
    ensures Linked(pairs, a, b) <==> Component(pairs, names, a) == Component(pairs, names, b)
  {
    if Component(pairs, names, a) == Component(pairs, names, b) {
      assert Linked(pairs, b, b);
      assert b in Component(pairs, names, b);
    }
    if Linked(pairs, a, b) {
      forall x | x in names ensures Linked(pairs, a, x) == Linked(pairs, b, x) {
      }
    }
  }

  /** The numbering step `hashmap_k.entry(name).or_insert_with(...)`: a
      city met for the first time gets the next number, pushed onto the
      union-find as its own root. */
  method NodeOf(dsu: DisjointSets, ids: map<string, nat>, cnt: nat, name: string,
                ghost order: seq<string>, ghost pairs: seq<(string, string)>)
    returns (node: nat, ids': map<string, nat>, cnt': nat, ghost order': seq<string>)
    requires |dsu.parent| == cnt && Joined(dsu.parent, ids, order, pairs)
    modifies dsu
    ensures |dsu.parent| == cnt' && Joined(dsu.parent, ids', order', pairs)
    ensures ids'.Keys == ids.Keys + {name} && node == ids'[name]
    ensures forall a :: a in ids ==> ids'[a] == ids[a]
    ensures dsu.Valid()
  {
    if name in ids {
      return ids[name], ids, cnt, order;
    }
    AddJoined(dsu.parent, ids, order, pairs, name);
    dsu.Add(cnt);
    ids' := ids[name := cnt];
    cnt' := cnt + 1;
    node := cnt;
    order' := order + [name];
  }

  /** The cities of a list, as a set. */
  function Listed(cities: seq<string>): set<string>
  {
    set c | c in cities
  }

  /** The loop over one province (district.rs lines 114-139): number every
      city, unite each city with each city it lists, and count the
      representatives. The count is the number of connected components. */
  method CountComponents(adjacency: Adjacency) returns (count: nat)
    ensures count == ComponentCount(adjacency)
  {
    var ids: map<string, nat> := map[];
    var dsu := new DisjointSets();
    var cnt := 0;
    ghost var order: seq<string> := [];
    ghost var done: seq<(string, string)> := [];
    for e := 0 to |adjacency|
      invariant |dsu.parent| == cnt && Joined(dsu.parent, ids, order, done)
      invariant done == Pairs(adjacency[..e]) && ids.Keys == Names(adjacency[..e])
    {
      var (k, listed) := adjacency[e];
      var kNode;
      kNode, ids, cnt, order := NodeOf(dsu, ids, cnt, k, order, done);
      ids, cnt, order, done := UniteListed(dsu, ids, cnt, k, kNode, listed, order, done);
      PrefixStep(adjacency, e);
    }
    assert adjacency[..|adjacency|] == adjacency;
    ghost var final := dsu.parent;
    count := dsu.GetIsolatedPart();
    RootsCountComponents(final, ids, order, adjacency);
  }

  /** `for city in v`: number each listed city and unite it with city k. */
  method UniteListed(dsu: DisjointSets, ids0: map<string, nat>, cnt0: nat, k: string, kNode: nat, listed: seq<string>,
                     ghost order0: seq<string>, ghost done0: seq<(string, string)>)
    returns (ids: map<string, nat>, cnt: nat, ghost order: seq<string>, ghost done: seq<(string, string)>)
    requires |dsu.parent| == cnt0 && Joined(dsu.parent, ids0, order0, done0)
    requires k in ids0 && kNode == ids0[k]
    modifies dsu
    ensures |dsu.parent| == cnt && Joined(dsu.parent, ids, order, done)
    ensures done == done0 + PairsOf(k, listed) && ids.Keys == ids0.Keys + Listed(listed)
  {
    ids, cnt, order, done := ids0, cnt0, order0, done0;
    for j := 0 to |listed|
      invariant |dsu.parent| == cnt && Joined(dsu.parent, ids, order, done)
      invariant done == done0 + PairsOf(k, listed[..j])
      invariant ids.Keys == ids0.Keys + Listed(listed[..j])
      invariant k in ids && kNode == ids[k]
    {
      var city := listed[j];
      var cityNode;
      cityNode, ids, cnt, order := NodeOf(dsu, ids, cnt, city, order, done);
      ghost var p := dsu.parent;
      dsu.Union(kNode, cityNode);
      UnionJoined(p, dsu.parent, ids, order, done, k, city);
      PairsOfStep(k, listed, j);
      done := done + [(k, city)];
    }
    assert listed[..|listed|] == listed;
  }

  /** One more listed city adds one pair and one name. */
  lemma PairsOfStep(k: string, listed: seq<string>, j: nat)
    requires j < |listed|
    ensures PairsOf(k, listed[..j + 1]) == PairsOf(k, listed[..j]) + [(k, listed[j])]
    ensures Listed(listed[..j + 1]) == Listed(listed[..j]) + {listed[j]}
  {
    assert listed[..j + 1] == listed[..j] + [listed[j]];
  }

  /** One more entry adds its pairs and its names. */
  lemma PrefixStep(adjacency: Adjacency, e: nat)
    requires e < |adjacency|
    ensures Pairs(adjacency[..e + 1]) == Pairs(adjacency[..e]) + PairsOf(adjacency[e].0, adjacency[e].1)
    ensures Names(adjacency[..e + 1]) == Names(adjacency[..e]) + {adjacency[e].0} + Listed(adjacency[e].1)
  {
    assert adjacency[..e + 1][..e] == adjacency[..e];
  }

  /** The loop over the provinces (district.rs lines 112-140): one count
      per province, in the order given. */
  method CountProvinces(provinces: seq<(string, Adjacency)>) returns (counts: seq<(string, nat)>)
    ensures |counts| == |provinces|
    ensures forall i :: 0 <= i < |provinces| ==> counts[i] == (provinces[i].0, ComponentCount(provinces[i].1))
  {
    counts := [];
    for i := 0 to |provinces|
      invariant |counts| == i
      invariant forall j :: 0 <= j < i ==> counts[j] == (provinces[j].0, ComponentCount(provinces[j].1))
    {
      var count := CountComponents(provinces[i].1);
      counts := counts + [(provinces[i].0, count)];
    }
  }
}
