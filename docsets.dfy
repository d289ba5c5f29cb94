/**
 * Set algebra over document-id sets (`DocList`, an unordered set of ints in the
 * engine). Each operation builds its result by inserting one id at a time, as the
 * engine does; its contract is the set expression it computes.
 */
module DocSets {

  /** The ids of the loaded documents, `[0, documents.size())`. */
  function Universe(n: nat): (u: set<int>)
    ensures forall i :: i in u <==> 0 <= i < n
  {
    if n == 0 then {} else Universe(n - 1) + {n - 1}
  }

  /**
   * intersect: walks the smaller operand and probes the larger one. Whichever
   * operand is larger, the result is the intersection.
   */
  method Intersect(a: set<int>, b: set<int>) returns (r: set<int>)
    ensures r == a * b
  {
    if |a| > |b| {
      r := Probe(b, a);
    } else {
      r := Probe(a, b);
    }
  }

  /** The loop of intersect: every id of `small` that `large` also holds. */
  method Probe(small: set<int>, large: set<int>) returns (r: set<int>)
    ensures r == small * large
  {
    r := {};
    var todo := small;
    while todo != {}
      invariant todo <= small
      invariant r == (small - todo) * large
      decreases |todo|
    {
      HasElement(todo);
      var id :| id in todo;
      if id in large {
        r := r + {id};
      }
      todo := todo - {id};
    }
  }

  /** union_op: a copy of `a` into which every id of `b` is inserted. */
  method Union(a: set<int>, b: set<int>) returns (r: set<int>)
    ensures r == a + b
  {
    r := a;
    var todo := b;
    while todo != {}
      invariant todo <= b
      invariant r == a + (b - todo)
      decreases |todo|
    {
      HasElement(todo);
      var id :| id in todo;
      r := r + {id};
      todo := todo - {id};
    }
  }

  /** complement: every id of the universe that is not in `a`. */
  method Complement(a: set<int>, n: nat) returns (r: set<int>)
    ensures r == Universe(n) - a
  {
    r := {};
    for i := 0 to n
      invariant r == Universe(i) - a
    {
      if i !in a {
        r := r + {i};
      }
    }
  }

  lemma HasElement(s: set<int>)
    requires s != {}
    ensures exists id :: id in s
  {
    if forall id :: id !in s {
      assert false;
    }
  }

  /** The complement never shares an id with the set it was taken from. */
  lemma ComplementDisjoint(a: set<int>, n: nat)
    ensures a * (Universe(n) - a) == {}
  {
  }

  /** Taking the complement twice keeps only the ids inside the universe. */
  lemma DoubleComplement(a: set<int>, n: nat)
    ensures Universe(n) - (Universe(n) - a) == a * Universe(n)
  {
  }
}
