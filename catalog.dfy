/**
 * Code lookup over the discounts table (DiscountManager::findDiscountByCode)
 * and the belongs-to relation from an assignment to its discount. The table
 * is a sequence in key order; a query's first() is its first match.
 */
module Catalog {
  import opened Wrappers
  import opened DiscountModel

  /** Str::upper, for the ASCII letters only. */
  function UpperChar(c: char): char
  {
    if 'a' <= c <= 'z' then (c as int - 32) as char else c
  }

  predicate IsLower(c: char)
  {
    'a' <= c <= 'z'
  }

  /** Str::upper: the code with every lower-case letter replaced by its capital. */
  function Upper(s: string): (r: string)
    ensures |r| == |s|
    ensures forall i :: 0 <= i < |r| ==> !IsLower(r[i])
    ensures (forall i :: 0 <= i < |s| ==> !IsLower(s[i])) ==> r == s
  {
    seq(|s|, i requires 0 <= i < |s| => UpperChar(s[i]))
  }

  /** Upper-casing an upper-cased code changes nothing. */
  lemma UpperIdempotent(s: string)
    ensures Upper(Upper(s)) == Upper(s)
  {
  }

  /** `a` and `b` spell the same code up to the case of ASCII letters. */
  predicate SameIgnoringCase(a: string, b: string)
  {
    && |a| == |b|
    && forall i :: 0 <= i < |a| ==>
         a[i] == b[i]
         || (IsLower(a[i]) && b[i] as int == a[i] as int - 32)
         || (IsLower(b[i]) && a[i] as int == b[i] as int - 32)
  }

  /** Two codes that differ only in letter case upper-case to the same code. */
  lemma {:induction false} UpperIgnoresCase(a: string, b: string)
    requires SameIgnoringCase(a, b)
    ensures Upper(a) == Upper(b)
  {
    forall i | 0 <= i < |a| ensures Upper(a)[i] == Upper(b)[i] {
      assert Upper(a)[i] == UpperChar(a[i]);
      assert Upper(b)[i] == UpperChar(b[i]);
    }
  }

  /** The position of the first row `keep` accepts, or |table| when there is none. */
  function FirstIndex(table: seq<Discount>, keep: Discount -> bool): (k: nat)
    ensures k <= |table|
    ensures k < |table| ==> keep(table[k])
    ensures forall j :: 0 <= j < k ==> !keep(table[j])
  {
    if table == [] then 0
    else if keep(table[0]) then 0
    else 1 + FirstIndex(table[1..], keep)
  }

  /** A query's first(): the first row in key order that `keep` accepts. */
  function First(table: seq<Discount>, keep: Discount -> bool): (r: Option<Discount>)
    ensures r.Some? ==> r.value in table && keep(r.value)
    ensures r.Some? ==> exists k :: 0 <= k < |table| && table[k] == r.value
                          && forall j :: 0 <= j < k ==> !keep(table[j])
    ensures r.None? <==> forall d :: d in table ==> !keep(d)
  {
    var k := FirstIndex(table, keep);
    if k < |table| then Some(table[k]) else None
  }

  /** where('code', code)->first() */
  function FirstWithCode(table: seq<Discount>, code: string): (r: Option<Discount>)
    ensures r.Some? ==> r.value in table && r.value.code == code
    ensures r.Some? ==> exists k :: 0 <= k < |table| && table[k] == r.value
                          && forall j :: 0 <= j < k ==> table[j].code != code
    ensures r.None? <==> forall d :: d in table ==> d.code != code
  {
    First(table, (d: Discount) => d.code == code)
  }

  /**
   * findDiscountByCode: the upper-cased code is tried first, then the code as
   * given; when neither matches the lookup fails with NotFound. Each match is
   * the first row in key order with that code.
   */
  function FindDiscountByCode(table: seq<Discount>, code: string): (r: Result<Discount>)
    ensures r.Ok? ==> r.value in table && (r.value.code == Upper(code) || r.value.code == code)
    ensures r.Ok? ==> exists k :: 0 <= k < |table| && table[k] == r.value
                        && forall j :: 0 <= j < k ==> table[j].code != r.value.code
    ensures (exists d :: d in table && d.code == Upper(code)) ==> r.Ok? && r.value.code == Upper(code)
    ensures r.Err? <==> forall d :: d in table ==> d.code != Upper(code) && d.code != code
    ensures r.Err? ==> r.error == NotFound
  {
    match FirstWithCode(table, Upper(code))
    case Some(d) => Ok(d)
    case None =>
      match FirstWithCode(table, code)
      case Some(d) => Ok(d)
      case None => Err(NotFound)
  }

  /**
   * When the table stores a code in capitals, every spelling of it that
   * differs only in letter case finds the same discount.
   */
  lemma CaseInsensitiveLookup(table: seq<Discount>, a: string, b: string)
    requires SameIgnoringCase(a, b)
    requires exists d :: d in table && d.code == Upper(a)
    ensures FindDiscountByCode(table, a) == FindDiscountByCode(table, b)
    ensures FindDiscountByCode(table, a).Ok?
  {
    UpperIgnoresCase(a, b);
  }

  /** The discount relation of an assignment: the row with that key, if it still exists. */
  function FindById(table: seq<Discount>, id: nat): (r: Option<Discount>)
    ensures r.Some? ==> r.value in table && r.value.id == id
    ensures r.None? <==> forall d :: d in table ==> d.id != id
  {
    First(table, (d: Discount) => d.id == id)
  }
}
