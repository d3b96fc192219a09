/** Python's `sorted` over distinct strings: lexicographic order. */
module Sorting {

  predicate Less(a: string, b: string) {
    b != "" && (a == "" || a[0] < b[0] || (a[0] == b[0] && Less(a[1..], b[1..])))
  }

  lemma LessTransitive(a: string, b: string, c: string)
    requires Less(a, b) && Less(b, c)
    ensures Less(a, c)
  {
  }

  lemma LessTotal(a: string, b: string)
    ensures a != b ==> Less(a, b) || Less(b, a)
    ensures !(Less(a, b) && Less(b, a))
    ensures !Less(a, a)
  {
    if a != "" && b != "" && a[0] == b[0] {
      LessTotal(a[1..], b[1..]);
      assert a == [a[0]] + a[1..] && b == [b[0]] + b[1..];
    }
    if a != "" {
      LessTotal(a[1..], a[1..]);
    }
  }

  lemma PrefixIsLess(a: string, more: string)
    requires more != ""
    ensures Less(a, a + more)
  {
    if a != "" {
      PrefixIsLess(a[1..], more);
      assert (a + more)[1..] == a[1..] + more;
    }
  }

  /** The first difference decides. */
  lemma {:induction false} FirstDifferenceDecides(prefix: string, c: char, d: char, s: string, t: string)
    ensures Less(prefix + ([c] + s), prefix + ([d] + t)) <==> c < d || (c == d && Less(s, t))
  {
    var a, b := prefix + ([c] + s), prefix + ([d] + t);
    if prefix == "" {
      assert a == [c] + s && b == [d] + t;
      assert a[1..] == s && b[1..] == t;
    } else {
      assert a[1..] == prefix[1..] + ([c] + s) && b[1..] == prefix[1..] + ([d] + t);
      FirstDifferenceDecides(prefix[1..], c, d, s, t);
    }
  }

  predicate IsSorted(order: seq<string>) {
    forall i, j :: 0 <= i < j < |order| ==> Less(order[i], order[j])
  }

  /** The keys in order, each once. */
  ghost predicate Lists(order: seq<string>, keys: set<string>) {
    IsSorted(order) && forall k :: k in order <==> k in keys
  }

  function Insert(order: seq<string>, k: string): (r: seq<string>) {
    if order == [] || Less(k, order[0]) then [k] + order else [order[0]] + Insert(order[1..], k)
  }

  lemma {:induction false} InsertKeepsSorted(order: seq<string>, k: string)
    requires IsSorted(order) && k !in order
    ensures IsSorted(Insert(order, k))
    ensures forall x :: x in Insert(order, k) <==> x == k || x in order
  {
    if order != [] {
      if Less(k, order[0]) {
        forall j | 0 <= j < |order| ensures Less(k, order[j]) {
          if j > 0 {
            LessTransitive(k, order[0], order[j]);
          }
        }
      } else {
        LessTotal(k, order[0]);
        assert order == [order[0]] + order[1..];
        InsertKeepsSorted(order[1..], k);
        var rest := Insert(order[1..], k);
        forall j | 0 <= j < |rest| ensures Less(order[0], rest[j]) {
          assert rest[j] in rest;
        }
      }
    }
  }

  method SortedKeys(keys: set<string>) returns (order: seq<string>)
    ensures Lists(order, keys)
  {
    order := [];
    var todo := keys;
    while todo != {}
      invariant todo <= keys && Lists(order, keys - todo)
    {
      var k :| k in todo;
      InsertKeepsSorted(order, k);
      order := Insert(order, k);
      todo := todo - {k};
    }
  }
}
