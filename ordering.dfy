/**
 * `order_by('text')` on answers: answers sorted by their text. Text is compared
 * lexicographically by character code; the database's collation is not modelled.
 */
module Ordering {
  import opened Models

  /** `a` sorts no later than `b`: lexicographic order, a prefix first. */
  predicate TextLe(a: string, b: string) {
    if a == [] then true
    else if b == [] then false
    else if a[0] != b[0] then a[0] < b[0]
    else TextLe(a[1..], b[1..])
  }

  /** Any two texts are comparable. */
  lemma {:induction false} TextLeTotal(a: string, b: string)
    ensures TextLe(a, b) || TextLe(b, a)
  {
    if a != [] && b != [] && a[0] == b[0] {
      TextLeTotal(a[1..], b[1..]);
    }
  }

  /** The order is transitive. */
  lemma {:induction false} TextLeTransitive(a: string, b: string, c: string)
    requires TextLe(a, b) && TextLe(b, c)
    ensures TextLe(a, c)
  {
    if a != [] && b != [] && c != [] && a[0] == b[0] == c[0] {
      TextLeTransitive(a[1..], b[1..], c[1..]);
    }
  }

  /** Every answer sorts no later than every answer after it. */
  predicate SortedByText(s: seq<Answer>) {
    forall i, j :: 0 <= i < j < |s| ==> TextLe(s[i].text, s[j].text)
  }

  /** `a` placed into the sorted `s` before the first answer it sorts no later than. */
  function Insert(a: Answer, s: seq<Answer>): (r: seq<Answer>)
    ensures multiset(r) == multiset(s) + multiset{a}
  {
    if s == [] then [a]
    else if TextLe(a.text, s[0].text) then [a] + s
    else
      assert s == [s[0]] + s[1..];
      [s[0]] + Insert(a, s[1..])
  }

  /** The answers of `s`, ordered by text. */
  function ByText(s: seq<Answer>): (r: seq<Answer>)
    ensures multiset(r) == multiset(s)
  {
    if s == [] then []
    else
      assert s == [s[0]] + s[1..];
      Insert(s[0], ByText(s[1..]))
  }

  lemma {:induction false} InsertSorted(a: Answer, s: seq<Answer>)
    requires SortedByText(s)
    ensures SortedByText(Insert(a, s))
  {
    if s != [] && !TextLe(a.text, s[0].text) {
      var rest := s[1..];
      assert SortedByText(rest) by {
        forall i, j | 0 <= i < j < |rest| ensures TextLe(rest[i].text, rest[j].text) {
          assert rest[i] == s[i + 1] && rest[j] == s[j + 1];
        }
      }
      InsertSorted(a, rest);
      TextLeTotal(a.text, s[0].text);
      var r := Insert(a, rest);
      forall k | 0 <= k < |r| ensures TextLe(s[0].text, r[k].text) {
        assert r[k] in multiset(rest) + multiset{a};
        if r[k] != a {
          var m :| 0 <= m < |rest| && rest[m] == r[k];
          assert s[m + 1] == r[k];
        }
      }
      var out := Insert(a, s);
      assert out == [s[0]] + r;
      forall i, j | 0 <= i < j < |out| ensures TextLe(out[i].text, out[j].text) {
        if i > 0 { assert out[i] == r[i - 1] && out[j] == r[j - 1]; }
      }
    } else if s != [] {
      var out := Insert(a, s);
      assert out == [a] + s;
      forall i, j | 0 <= i < j < |out| ensures TextLe(out[i].text, out[j].text) {
        if i == 0 && j > 1 {
          TextLeTransitive(a.text, s[0].text, s[j - 1].text);
        } else if i > 0 {
          assert out[i] == s[i - 1] && out[j] == s[j - 1];
        }
      }
    }
  }

  /** Sorting by text yields answers ordered by text. */
  lemma {:induction false} ByTextSorted(s: seq<Answer>)
    ensures SortedByText(ByText(s))
  {
    if s != [] {
      ByTextSorted(s[1..]);
      InsertSorted(s[0], ByText(s[1..]));
    }
  }
}
