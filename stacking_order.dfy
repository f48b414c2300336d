/**
 * The stacking orderer (DiscountManager::orderDiscounts and ::resolveSortValue):
 * candidates are sorted by the configured key in the configured direction,
 * and ties on the key are broken by ascending discount code whatever the
 * direction. The collection sort is modelled as a stable insertion sort.
 */
module StackingOrder {
  import opened Wrappers
  import opened Settings
  import opened Eligibility

  /** resolveSortValue: the integer a candidate is sorted by (0 for a missing discount's priority). */
  function SortValue(c: Candidate, key: SortKey): int
  {
    match key
    case AssignedAt => c.assignment.assignedAt
    case UsageCount => c.assignment.usageCount
    case Priority => if c.discount.Some? then c.discount.value.priority else 0
  }

  /** The code the tie-break compares; a missing discount reads as the empty string. */
  function CodeOf(c: Candidate): string
  {
    if c.discount.Some? then c.discount.value.code else ""
  }

  /**
   * strcmp(a, b) <= 0: lexicographic order on characters. Comparing code
   * points is comparing UTF-8 bytes, which is what strcmp does.
   */
  predicate CodeLe(a: string, b: string)
    decreases |a|
  {
    if |a| == 0 then true
    else if |b| == 0 then false
    else if a[0] != b[0] then a[0] < b[0]
    else CodeLe(a[1..], b[1..])
  }

  /** The comparator of orderDiscounts is at most 0: `a` may be placed before `b`. */
  predicate Precedes(cfg: Config, a: Candidate, b: Candidate)
  {
    var x, y := SortValue(a, cfg.order), SortValue(b, cfg.order);
    if x == y then CodeLe(CodeOf(a), CodeOf(b))
    else if cfg.direction == Desc then x > y
    else x < y
  }

  ghost predicate Sorted(cfg: Config, s: seq<Candidate>)
  {
    forall i, j :: 0 <= i < j < |s| ==> Precedes(cfg, s[i], s[j])
  }

  /** Places `x` before the first element it may precede. */
  function Insert(cfg: Config, x: Candidate, s: seq<Candidate>): (r: seq<Candidate>)
    requires Sorted(cfg, s)
    ensures multiset(r) == multiset(s) + multiset{x}
    ensures Sorted(cfg, r)
  {
    if s == [] then [x]
    else if Precedes(cfg, x, s[0]) then
      PrecedesTransitiveFrom(cfg, x, s);
      [x] + s
    else
      var rest := Insert(cfg, x, s[1..]);
      PrecedesTotal(cfg, x, s[0]);
      assert s == [s[0]] + s[1..];
      forall y | y in rest ensures Precedes(cfg, s[0], y) {
        assert y in multiset(rest);
        if y != x {
          var k :| 1 <= k < |s| && s[k] == y;
        }
      }
      SortedCons(cfg, s[0], rest);
      [s[0]] + rest
  }

  /** orderDiscounts: the candidates as a sorted permutation. */
  function OrderDiscounts(cfg: Config, s: seq<Candidate>): (r: seq<Candidate>)
    ensures multiset(r) == multiset(s)
    ensures Sorted(cfg, r)
  {
    if s == [] then []
    else
      assert s == [s[0]] + s[1..];
      Insert(cfg, s[0], OrderDiscounts(cfg, s[1..]))
  }

  // ---------------------------------------------------------------------------
  // The code order

  lemma {:induction false} CodeLeTotal(a: string, b: string)
    ensures CodeLe(a, b) || CodeLe(b, a)
    decreases |a|
  {
    if |a| > 0 && |b| > 0 && a[0] == b[0] {
      CodeLeTotal(a[1..], b[1..]);
    }
  }

  lemma {:induction false} CodeLeReflexive(a: string)
    ensures CodeLe(a, a)
    decreases |a|
  {
    if |a| > 0 {
      CodeLeReflexive(a[1..]);
    }
  }

  lemma {:induction false} CodeLeTransitive(a: string, b: string, c: string)
    requires CodeLe(a, b) && CodeLe(b, c)
    ensures CodeLe(a, c)
    decreases |a|
  {
    if |a| > 0 && |b| > 0 && |c| > 0 && a[0] == b[0] && b[0] == c[0] {
      CodeLeTransitive(a[1..], b[1..], c[1..]);
    }
  }

  lemma {:induction false} CodeLeAntisymmetric(a: string, b: string)
    requires CodeLe(a, b) && CodeLe(b, a)
    ensures a == b
    decreases |a|
  {
    if |a| > 0 && |b| > 0 {
      CodeLeAntisymmetric(a[1..], b[1..]);
      assert a == [a[0]] + a[1..] && b == [b[0]] + b[1..];
    }
  }

  // ---------------------------------------------------------------------------
  // The comparator is a total preorder

  lemma PrecedesTotal(cfg: Config, a: Candidate, b: Candidate)
    ensures Precedes(cfg, a, b) || Precedes(cfg, b, a)
  {
    CodeLeTotal(CodeOf(a), CodeOf(b));
  }

  lemma PrecedesTransitive(cfg: Config, a: Candidate, b: Candidate, c: Candidate)
    requires Precedes(cfg, a, b) && Precedes(cfg, b, c)
    ensures Precedes(cfg, a, c)
  {
    var x, y, z := SortValue(a, cfg.order), SortValue(b, cfg.order), SortValue(c, cfg.order);
    if x == y && y == z {
      CodeLeTransitive(CodeOf(a), CodeOf(b), CodeOf(c));
    }
  }

  /** A head that may precede every element of a sorted tail extends it to a sorted sequence. */
  lemma SortedCons(cfg: Config, h: Candidate, t: seq<Candidate>)
    requires Sorted(cfg, t)
    requires forall y :: y in t ==> Precedes(cfg, h, y)
    ensures Sorted(cfg, [h] + t)
  {
    var r := [h] + t;
    forall i, j | 0 <= i < j < |r| ensures Precedes(cfg, r[i], r[j]) {
      assert r[j] == t[j - 1];
      if i > 0 {
        assert r[i] == t[i - 1];
      }
    }
  }

  lemma PrecedesTransitiveFrom(cfg: Config, x: Candidate, s: seq<Candidate>)
    requires s != [] && Sorted(cfg, s) && Precedes(cfg, x, s[0])
    ensures Sorted(cfg, [x] + s)
  {
    forall j | 0 < j < |s| ensures Precedes(cfg, x, s[j]) {
      PrecedesTransitive(cfg, x, s[0], s[j]);
    }
  }

  // ---------------------------------------------------------------------------
  // What the order promises

  /**
   * In the result, an earlier candidate has a larger key (descending) or a
   * smaller key (ascending), or the same key and a code that is not larger:
   * the tie-break is ascending code in both directions.
   */
  lemma OrderedByKeyThenCode(cfg: Config, s: seq<Candidate>, i: nat, j: nat)
    requires i < j < |OrderDiscounts(cfg, s)|
    ensures var r := OrderDiscounts(cfg, s);
      var x, y := SortValue(r[i], cfg.order), SortValue(r[j], cfg.order);
      && (cfg.direction == Desc ==> x >= y)
      && (cfg.direction == Asc ==> x <= y)
      && (x == y ==> CodeLe(CodeOf(r[i]), CodeOf(r[j])))
  {
  }

  /**
   * Two sorted arrangements of the same candidates are the same sequence when
   * no two distinct candidates tie completely (same key and same code).
   */
  lemma {:induction false} SortedArrangementUnique(cfg: Config, a: seq<Candidate>, b: seq<Candidate>)
    requires multiset(a) == multiset(b)
    requires Sorted(cfg, a) && Sorted(cfg, b)
    requires forall x, y :: x in a && y in a && CodeOf(x) == CodeOf(y) ==> x == y
    ensures a == b
    decreases |a|
  {
    assert |a| == |multiset(a)| == |multiset(b)| == |b|;
    if |a| > 0 {
      SortedHeadsEqual(cfg, a, b);
      SameTails(a, b);
      SortedTail(cfg, a);
      SortedTail(cfg, b);
      forall x, y | x in a[1..] && y in a[1..] && CodeOf(x) == CodeOf(y) ensures x == y {
        assert x in a && y in a;
      }
      SortedArrangementUnique(cfg, a[1..], b[1..]);
    }
  }

  lemma SameTails(a: seq<Candidate>, b: seq<Candidate>)
    requires multiset(a) == multiset(b) && |a| > 0 && |b| > 0 && a[0] == b[0]
    ensures multiset(a[1..]) == multiset(b[1..])
  {
    assert a == [a[0]] + a[1..] && b == [b[0]] + b[1..];
    assert multiset(a) == multiset{a[0]} + multiset(a[1..]);
    assert multiset(b) == multiset{a[0]} + multiset(b[1..]);
    forall z ensures multiset(a[1..])[z] == multiset(b[1..])[z] {
      assert multiset(a)[z] == multiset{a[0]}[z] + multiset(a[1..])[z];
      assert multiset(b)[z] == multiset{a[0]}[z] + multiset(b[1..])[z];
    }
  }

  lemma SortedTail(cfg: Config, a: seq<Candidate>)
    requires Sorted(cfg, a) && |a| > 0
    ensures Sorted(cfg, a[1..])
  {
  }

  /** The first element of two such arrangements is the same candidate. */
  lemma SortedHeadsEqual(cfg: Config, a: seq<Candidate>, b: seq<Candidate>)
    requires multiset(a) == multiset(b) && |a| > 0
    requires Sorted(cfg, a) && Sorted(cfg, b)
    requires forall x, y :: x in a && y in a && CodeOf(x) == CodeOf(y) ==> x == y
    ensures |b| > 0 && a[0] == b[0]
  {
    assert a[0] in multiset(b);
    var i :| 0 <= i < |b| && b[i] == a[0];
    assert b[0] in multiset(a);
    var j :| 0 <= j < |a| && a[j] == b[0];
    CodeLeReflexive(CodeOf(a[0]));
    assert Precedes(cfg, b[0], a[0]) by {
      if i > 0 {
        assert Precedes(cfg, b[0], b[i]);
      }
    }
    assert Precedes(cfg, a[0], b[0]) by {
      if j > 0 {
        assert Precedes(cfg, a[0], a[j]);
      }
    }
    if SortValue(a[0], cfg.order) == SortValue(b[0], cfg.order) {
      CodeLeAntisymmetric(CodeOf(a[0]), CodeOf(b[0]));
      assert a[0] in a && b[0] in a;
    }
  }

  /**
   * The stacking order depends on which candidates there are, not on the order
   * the query returned them in, once codes are unique among them.
   */
  lemma OrderIndependentOfInput(cfg: Config, s1: seq<Candidate>, s2: seq<Candidate>)
    requires multiset(s1) == multiset(s2)
    requires forall x, y :: x in s1 && y in s1 && CodeOf(x) == CodeOf(y) ==> x == y
    ensures OrderDiscounts(cfg, s1) == OrderDiscounts(cfg, s2)
  {
    var a, b := OrderDiscounts(cfg, s1), OrderDiscounts(cfg, s2);
    forall x, y | x in a && y in a && CodeOf(x) == CodeOf(y) ensures x == y {
      assert x in multiset(a) && y in multiset(a);
      assert x in s1 && y in s1;
    }
    SortedArrangementUnique(cfg, a, b);
  }

  /** Sorting keeps the assignments' keys pairwise distinct. */
  lemma {:induction false} OrderKeepsIdsDistinct(cfg: Config, s: seq<Candidate>)
    requires DistinctIds(s)
    ensures DistinctIds(OrderDiscounts(cfg, s))
  {
    if s != [] {
      assert s == [s[0]] + s[1..];
      OrderKeepsIdsDistinct(cfg, s[1..]);
      var t := OrderDiscounts(cfg, s[1..]);
      forall y | y in t ensures y.assignment.id != s[0].assignment.id {
        assert y in multiset(t);
        var k :| 1 <= k < |s| && s[k] == y;
      }
      InsertKeepsIdsDistinct(cfg, s[0], t);
    }
  }

  lemma {:induction false} InsertKeepsIdsDistinct(cfg: Config, x: Candidate, s: seq<Candidate>)
    requires Sorted(cfg, s) && DistinctIds(s)
    requires forall y :: y in s ==> y.assignment.id != x.assignment.id
    ensures DistinctIds(Insert(cfg, x, s))
  {
    if s != [] && !Precedes(cfg, x, s[0]) {
      InsertKeepsIdsDistinct(cfg, x, s[1..]);
      var rest := Insert(cfg, x, s[1..]);
      forall y | y in rest ensures y.assignment.id != s[0].assignment.id {
        assert y in multiset(rest);
        if y != x {
          var k :| 1 <= k < |s| && s[k] == y;
        }
      }
    }
  }
}
