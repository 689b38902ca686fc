/** `new_count_distinct` (exercises/normal/solution1/src/count_distinct.rs):
    the number of different comma-separated pieces of a string. */
module CountDistinct {
  import opened Text

  /** The distinct pieces `input.split(',')` yields. */
  function Pieces(input: string): set<string>
  {
    set p | p in Split(input, ',')
  }

  /** Inserts every piece into a set and returns the set's size. */
  method NewCountDistinct(input: string) returns (count: nat)
    ensures count == |Pieces(input)|
    ensures 1 <= count <= Occurrences(input, ',') + 1
  {
    var pieces := Split(input, ',');
    var seen: set<string> := {};
    for i := 0 to |pieces|
      invariant seen == set j | 0 <= j < i :: pieces[j]
    {
      seen := seen + {pieces[i]};
    }
    assert seen == Pieces(input);
    count := |seen|;
    assert pieces[0] in seen;
    SplitCount(input, ',');
    DistinctAtMostLength(pieces);
  }

  /** A sequence has no more distinct elements than it has elements. */
  lemma {:induction false} DistinctAtMostLength<T>(s: seq<T>)
    ensures |set x | x in s| <= |s|
  {
    if |s| > 0 {
      DistinctAtMostLength(s[1..]);
      assert (set x | x in s) == (set x | x in s[1..]) + {s[0]};
    }
  }

  /** Reordering the pieces does not change what is counted: strings whose
      pieces are permutations of each other have the same distinct pieces. */
  lemma ReorderedPieces(pieces: seq<string>, reordered: seq<string>)
    requires |pieces| >= 1
    requires forall i :: 0 <= i < |pieces| ==> ',' !in pieces[i]
    requires multiset(reordered) == multiset(pieces)
    ensures |reordered| >= 1
    ensures Pieces(Join(reordered, ',')) == Pieces(Join(pieces, ','))
  {
    assert |reordered| == |multiset(reordered)| == |pieces|;
    forall i | 0 <= i < |reordered| ensures ',' !in reordered[i] {
      assert reordered[i] in multiset(pieces);
    }
    SplitJoin(pieces, ',');
    SplitJoin(reordered, ',');
    forall p ensures p in reordered <==> p in pieces {
      assert p in reordered <==> p in multiset(reordered);
      assert p in pieces <==> p in multiset(pieces);
    }
  }

  /** Pieces are compared exactly, without trimming: "a, a" has two. */
  lemma NoTrimming()
    ensures |Pieces("a, a")| == 2
  {
    assert Split("", ',') == [""];
    assert "a"[1..] == "";
    assert ['a'] + "" == "a" && [""][1..] == [];
    assert Split("a", ',') == ["a"];
    assert " a"[1..] == "a";
    assert [' '] + "a" == " a" && ["a"][1..] == [];
    assert Split(" a", ',') == [" a"];
    assert ", a"[1..] == " a";
    assert Split(", a", ',') == ["", " a"];
    assert "a, a"[1..] == ", a";
    assert ['a'] + "" == "a" && ["", " a"][1..] == [" a"];
    assert Split("a, a", ',') == ["a", " a"];
    assert Pieces("a, a") == {"a", " a"};
  }
}
