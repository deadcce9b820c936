/** A many-to-many relation kept in two maps of sets, one for each direction. */
module TwoWayIndex {

  predicate Related(index: map<string, set<string>>, a: string, b: string) { a in index && b in index[a] }

  predicate NoEmptySets(index: map<string, set<string>>) { forall a :: a in index ==> index[a] != {} }

  /** The two maps are inverses of each other, and neither keeps an empty set. */
  ghost predicate Mirror(there: map<string, set<string>>, back: map<string, set<string>>) {
    && (forall a, b :: Related(there, a, b) <==> Related(back, b, a))
    && NoEmptySets(there)
    && NoEmptySets(back)
  }

  /** Each of two such maps determines the other. */
  lemma MirrorIsUnique(there: map<string, set<string>>, back: map<string, set<string>>, other: map<string, set<string>>)
    requires Mirror(there, back) && Mirror(there, other)
    ensures back == other
  {
    forall b ensures (b in back <==> b in other) && (b in back ==> back[b] == other[b]) {
      SameSetAt(there, back, other, b);
      SameSetAt(there, other, back, b);
    }
  }

  lemma SameSetAt(there: map<string, set<string>>, back: map<string, set<string>>, other: map<string, set<string>>,
                   b: string)
    requires Mirror(there, back) && Mirror(there, other)
    ensures b in back ==> b in other && back[b] <= other[b]
  {
    if b in back {
      forall a | a in back[b] ensures Related(other, b, a) {
        assert Related(back, b, a) && Related(there, a, b);
      }
      var a :| a in back[b];
      assert Related(other, b, a);
    }
  }

  lemma AbsentFromMirror(there: map<string, set<string>>, back: map<string, set<string>>, b: string)
    requires Mirror(there, back) && forall a :: !Related(there, a, b)
    ensures b !in back
  {
    if b in back {
      var a :| a in back[b] && Related(back, b, a);
      assert false;
    }
  }

  /** Takes `b` out of the set at `a`, and the set itself away when that empties it. */
  function Discard(index: map<string, set<string>>, a: string, b: string): map<string, set<string>> {
    if a !in index then index
    else if index[a] - {b} == {} then index - {a}
    else index[a := index[a] - {b}]
  }

  function Insert(index: map<string, set<string>>, a: string, b: string): map<string, set<string>> {
    index[a := (if a in index then index[a] else {}) + {b}]
  }

  lemma DiscardRelates(index: map<string, set<string>>, a: string, b: string)
    ensures forall x, y :: Related(Discard(index, a, b), x, y) <==> Related(index, x, y) && !(x == a && y == b)
    ensures NoEmptySets(index) ==> NoEmptySets(Discard(index, a, b))
  {
    forall x, y ensures Related(Discard(index, a, b), x, y) <==> Related(index, x, y) && !(x == a && y == b) {
      if a in index && x == a {
        assert y in index[a] - {b} <==> y in index[a] && y != b;
      }
    }
  }

  lemma InsertRelates(index: map<string, set<string>>, a: string, b: string)
    ensures forall x, y :: Related(Insert(index, a, b), x, y) <==> Related(index, x, y) || (x == a && y == b)
    ensures NoEmptySets(index) ==> NoEmptySets(Insert(index, a, b))
  {
    assert b in Insert(index, a, b)[a];
  }
}
