/**
 The line search engine: `search_iter` numbers the lines of the contents from 1,
 `search` keeps the lines that contain the query, and `search_case_insensitive`
 keeps the lines whose lowercase form contains the lowercase query. A match
 carries the original line text and its line number.
 */
module Engine {
  import opened Text

  /** A numbered line of the contents: `(usize, &str)` in minigrep. */
  datatype Match = Match(number: nat, text: string)

  /** `a` can be obtained from `b` by deleting elements, keeping the order of the rest. */
  predicate IsSubsequence(a: seq<Match>, b: seq<Match>)
    decreases |b|
  {
    a == [] || (b != [] && ((a[0] == b[0] && IsSubsequence(a[1..], b[1..])) || IsSubsequence(a, b[1..])))
  }

  /** Line numbers strictly increase along `ms`. */
  predicate StrictlyNumbered(ms: seq<Match>) {
    forall i, j :: 0 <= i < j < |ms| ==> ms[i].number < ms[j].number
  }

  /** `lines.enumerate().map(|(i, line)| (i + first, line))`. */
  function Enumerate(lines: seq<string>, first: nat): (r: seq<Match>)
    ensures |r| == |lines|
    ensures forall k :: 0 <= k < |r| ==> r[k] == Match(first + k, lines[k])
    decreases |lines|
  {
    if lines == [] then [] else [Match(first, lines[0])] + Enumerate(lines[1..], first + 1)
  }

  /** One match per line of `contents`, numbered 1, 2, ... in document order. */
  function SearchIter(contents: string): (r: seq<Match>)
    ensures |r| == |Lines(contents)|
    ensures forall k :: 0 <= k < |r| ==> r[k].number == k + 1 && r[k].text == Lines(contents)[k]
    ensures StrictlyNumbered(r)
  {
    Enumerate(Lines(contents), 1)
  }

  /** `Iterator::filter` on the line text, followed by `collect`. */
  function Keep(ms: seq<Match>, keep: string -> bool): (r: seq<Match>)
    ensures forall m :: m in r <==> m in ms && keep(m.text)
    ensures IsSubsequence(r, ms)
    decreases |ms|
  {
    if ms == [] then []
    else if keep(ms[0].text) then [ms[0]] + Keep(ms[1..], keep)
    else Keep(ms[1..], keep)
  }

  /** The filter keeps every occurrence of an accepted match and none of a rejected one. */
  lemma {:induction false} KeepMultiplicity(ms: seq<Match>, keep: string -> bool)
    ensures forall m :: multiset(Keep(ms, keep))[m] == if keep(m.text) then multiset(ms)[m] else 0
    decreases |ms|
  {
    if ms != [] {
      KeepMultiplicity(ms[1..], keep);
      assert ms == [ms[0]] + ms[1..];
    }
  }

  /** Case-sensitive search: the numbered lines that contain `query`. */
  function Search(query: string, contents: string): (r: seq<Match>)
    ensures forall m :: m in r <==> m in SearchIter(contents) && Contains(m.text, query)
    ensures IsSubsequence(r, SearchIter(contents))
  {
    Keep(SearchIter(contents), line => Contains(line, query))
  }

  /** Case-insensitive search: the numbered lines whose lowercase form contains the lowercase query. */
  function SearchCaseInsensitive(query: string, contents: string): (r: seq<Match>)
    ensures forall m :: m in r <==> m in SearchIter(contents) && Contains(Lower(m.text), Lower(query))
    ensures IsSubsequence(r, SearchIter(contents))
  {
    var lowerQuery := Lower(query);
    Keep(SearchIter(contents), line => Contains(Lower(line), lowerQuery))
  }

  /** `(n, t)` is a numbered line of `contents` exactly when `t` is its `n`-th line. */
  lemma InSearchIter(contents: string, n: nat, t: string)
    ensures Match(n, t) in SearchIter(contents) <==>
            1 <= n <= |Lines(contents)| && t == Lines(contents)[n - 1]
  {
  }

  /** A subsequence of a strictly numbered sequence is strictly numbered. */
  lemma {:induction false} SubsequenceKeepsOrder(a: seq<Match>, b: seq<Match>)
    requires IsSubsequence(a, b) && StrictlyNumbered(b)
    ensures StrictlyNumbered(a)
    ensures forall m :: m in a ==> m in b
    decreases |b|
  {
    if a != [] {
      assert b != [];
      assert StrictlyNumbered(b[1..]) by {
        forall i, j | 0 <= i < j < |b[1..]| ensures b[1..][i].number < b[1..][j].number {
          assert b[1..][i] == b[i + 1] && b[1..][j] == b[j + 1];
        }
      }
      if a[0] == b[0] && IsSubsequence(a[1..], b[1..]) {
        SubsequenceKeepsOrder(a[1..], b[1..]);
        forall i, j | 0 <= i < j < |a| ensures a[i].number < a[j].number {
          if i == 0 {
            assert a[j] == a[1..][j - 1];
            assert a[j] in a[1..];
            var k :| 0 <= k < |b[1..]| && b[1..][k] == a[j];
            assert b[k + 1] == a[j];
          } else {
            assert a[i] == a[1..][i - 1] && a[j] == a[1..][j - 1];
          }
        }
        forall m | m in a ensures m in b {
          if m != a[0] {
            assert m in a[1..];
          }
        }
      } else {
        SubsequenceKeepsOrder(a, b[1..]);
      }
    }
  }

  /**
   Case-sensitive search returns exactly the numbered lines that contain the query,
   with numbers strictly increasing and between 1 and the number of lines.
   */
  lemma SearchSpec(query: string, contents: string)
    ensures forall n: nat, t :: Match(n, t) in Search(query, contents) <==>
      1 <= n <= |Lines(contents)| && t == Lines(contents)[n - 1] && Contains(t, query)
    ensures StrictlyNumbered(Search(query, contents))
    ensures forall m :: m in Search(query, contents) ==> 1 <= m.number <= |Lines(contents)|
  {
    forall n: nat, t ensures Match(n, t) in Search(query, contents) <==>
      1 <= n <= |Lines(contents)| && t == Lines(contents)[n - 1] && Contains(t, query)
    {
      InSearchIter(contents, n, t);
    }
    SubsequenceKeepsOrder(Search(query, contents), SearchIter(contents));
  }

  /**
   Case-insensitive search returns exactly the numbered lines whose lowercase form
   contains the lowercase query; the text returned is the original line.
   */
  lemma SearchCaseInsensitiveSpec(query: string, contents: string)
    ensures forall n: nat, t :: Match(n, t) in SearchCaseInsensitive(query, contents) <==>
      1 <= n <= |Lines(contents)| && t == Lines(contents)[n - 1] && Contains(Lower(t), Lower(query))
    ensures StrictlyNumbered(SearchCaseInsensitive(query, contents))
    ensures forall m :: m in SearchCaseInsensitive(query, contents) ==> 1 <= m.number <= |Lines(contents)|
  {
    forall n: nat, t ensures Match(n, t) in SearchCaseInsensitive(query, contents) <==>
      1 <= n <= |Lines(contents)| && t == Lines(contents)[n - 1] && Contains(Lower(t), Lower(query))
    {
      InSearchIter(contents, n, t);
    }
    SubsequenceKeepsOrder(SearchCaseInsensitive(query, contents), SearchIter(contents));
  }

  /** Filtering with a predicate that holds of every text keeps everything. */
  lemma {:induction false} KeepAll(ms: seq<Match>, keep: string -> bool)
    requires forall k :: 0 <= k < |ms| ==> keep(ms[k].text)
    ensures Keep(ms, keep) == ms
    decreases |ms|
  {
    if ms != [] {
      KeepAll(ms[1..], keep);
    }
  }

  /** Two predicates that agree on every text of `ms` filter it alike. */
  lemma {:induction false} KeepCongruent(ms: seq<Match>, p: string -> bool, q: string -> bool)
    requires forall k :: 0 <= k < |ms| ==> p(ms[k].text) == q(ms[k].text)
    ensures Keep(ms, p) == Keep(ms, q)
    decreases |ms|
  {
    if ms != [] {
      KeepCongruent(ms[1..], p, q);
    }
  }

  /** A weaker predicate keeps a supersequence. */
  lemma {:induction false} KeepMonotone(ms: seq<Match>, p: string -> bool, q: string -> bool)
    requires forall k :: 0 <= k < |ms| ==> p(ms[k].text) ==> q(ms[k].text)
    ensures IsSubsequence(Keep(ms, p), Keep(ms, q))
    decreases |ms|
  {
    if ms != [] {
      KeepMonotone(ms[1..], p, q);
      if !q(ms[0].text) {
        assert Keep(ms, p) == Keep(ms[1..], p);
      } else if p(ms[0].text) {
        var r := Keep(ms, q);
        assert r[0] == ms[0] && r[1..] == Keep(ms[1..], q);
        assert Keep(ms, p)[1..] == Keep(ms[1..], p);
      } else {
        var r := Keep(ms, q);
        assert r[1..] == Keep(ms[1..], q);
        DropHead(Keep(ms[1..], p), r);
      }
    }
  }

  /** A subsequence of the tail of `b` is a subsequence of `b`. */
  lemma DropHead(a: seq<Match>, b: seq<Match>)
    requires b != [] && IsSubsequence(a, b[1..])
    ensures IsSubsequence(a, b)
  {
  }

  /** The empty query matches every line: search returns the full enumeration. */
  lemma EmptyQueryMatchesAll(contents: string)
    ensures Search("", contents) == SearchIter(contents)
    ensures SearchCaseInsensitive("", contents) == SearchIter(contents)
  {
    var all := SearchIter(contents);
    forall t: string ensures Contains(t, "") && Contains(Lower(t), Lower("")) {
      ContainsEmpty(t);
      ContainsEmpty(Lower(t));
    }
    KeepAll(all, line => Contains(line, ""));
    KeepAll(all, line => Contains(Lower(line), Lower("")));
  }

  /** Empty contents have no lines, so both variants find nothing, whatever the query. */
  lemma EmptyContents(query: string)
    ensures Search(query, "") == []
    ensures SearchCaseInsensitive(query, "") == []
  {
  }

  /** Every case-sensitive match is also a case-insensitive match, in the same order. */
  lemma SensitiveWithinInsensitive(query: string, contents: string)
    ensures IsSubsequence(Search(query, contents), SearchCaseInsensitive(query, contents))
  {
    var all := SearchIter(contents);
    var lowerQuery := Lower(query);
    forall k | 0 <= k < |all| ensures Contains(all[k].text, query) ==> Contains(Lower(all[k].text), lowerQuery) {
      if Contains(all[k].text, query) {
        LowerPreservesContains(all[k].text, query);
      }
    }
    KeepMonotone(all, line => Contains(line, query), line => Contains(Lower(line), lowerQuery));
  }

  /** The case of the query does not matter to the case-insensitive search. */
  lemma QueryCaseIrrelevant(query: string, contents: string)
    ensures SearchCaseInsensitive(Lower(query), contents) == SearchCaseInsensitive(query, contents)
  {
    LowerIdempotent(query);
    var all := SearchIter(contents);
    KeepCongruent(all, line => Contains(Lower(line), Lower(Lower(query))), line => Contains(Lower(line), Lower(query)));
  }
}
