/**
 The string primitives the search engine relies on: substring containment
 (`str::contains` with a string pattern), lowercasing (`str::to_lowercase`,
 restricted to ASCII letters) and line splitting (`str::lines`).
 */
module Text {

  /** `p` is a prefix of `s`. */
  predicate IsPrefix(p: string, s: string) {
    |p| <= |s| && s[..|p|] == p
  }

  /** `q` occurs in `s` starting at index `i`. */
  predicate OccursAt(s: string, q: string, i: int) {
    0 <= i && i + |q| <= |s| && s[i..i + |q|] == q
  }

  /** Substring containment, `str::contains` with a string pattern: `q` occurs somewhere in `s`. */
  predicate Contains(s: string, q: string): (r: bool)
    ensures r ==> |q| <= |s|
    ensures |q| == |s| ==> (r <==> s == q)
  {
    assert |q| == |s| && s == q ==> OccursAt(s, q, 0);
    exists i | 0 <= i <= |s| - |q| :: OccursAt(s, q, i)
  }

  /** A naive left-to-right scan that tries every start position of `s`. */
  predicate ScanContains(s: string, q: string)
    decreases |s|
  {
    IsPrefix(q, s) || (s != [] && ScanContains(s[1..], q))
  }

  /** The scan decides containment. */
  lemma {:induction false} ScanContainsIff(s: string, q: string)
    ensures ScanContains(s, q) <==> Contains(s, q)
    decreases |s|
  {
    if IsPrefix(q, s) {
      assert OccursAt(s, q, 0);
    } else if s == [] {
      assert |q| > 0;
    } else {
      ScanContainsIff(s[1..], q);
      if ScanContains(s[1..], q) {
        var j :| 0 <= j <= |s| - 1 - |q| && OccursAt(s[1..], q, j);
        assert s[j + 1..j + 1 + |q|] == s[1..][j..j + |q|];
        assert OccursAt(s, q, j + 1);
      }
      if Contains(s, q) {
        var i :| 0 <= i <= |s| - |q| && OccursAt(s, q, i);
        assert i != 0 by { assert s[..|q|] != q; }
        assert s[1..][i - 1..i - 1 + |q|] == s[i..i + |q|];
        assert OccursAt(s[1..], q, i - 1);
      }
    }
  }

  /** The empty string is contained in every string. */
  lemma ContainsEmpty(s: string)
    ensures Contains(s, "")
  {
    assert OccursAt(s, "", 0);
  }

  /** ASCII lowercasing of one character; every other character is left alone. */
  function LowerChar(c: char): char {
    if 'A' <= c <= 'Z' then (c as int - 'A' as int + 'a' as int) as char else c
  }

  /**
   Character-wise lowercasing of a string: each ASCII upper-case letter becomes the
   lower-case letter at the same offset from 'a', every other character is kept, and
   no ASCII upper-case letter is left.
   */
  function Lower(s: string): (r: string)
    ensures |r| == |s|
    ensures forall i :: 0 <= i < |s| && 'A' <= s[i] <= 'Z' ==>
      'a' <= r[i] <= 'z' && r[i] as int - 'a' as int == s[i] as int - 'A' as int
    ensures forall i :: 0 <= i < |s| && !('A' <= s[i] <= 'Z') ==> r[i] == s[i]
    ensures forall i :: 0 <= i < |s| ==> !('A' <= r[i] <= 'Z')
  {
    seq(|s|, i requires 0 <= i < |s| => LowerChar(s[i]))
  }

  /** `c` and `d` are the same character, or the two cases of one ASCII letter. */
  predicate SameIgnoringAsciiCase(c: char, d: char) {
    || c == d
    || ('A' <= c <= 'Z' && d as int == c as int + 32)
    || ('A' <= d <= 'Z' && c as int == d as int + 32)
  }

  /** Two characters lowercase alike exactly when they differ at most in ASCII case. */
  lemma LowerCharEqualIff(c: char, d: char)
    ensures LowerChar(c) == LowerChar(d) <==> SameIgnoringAsciiCase(c, d)
  {
  }

  /** Two strings lowercase alike exactly when they match position by position, ignoring ASCII case. */
  lemma LowerEqualIff(a: string, b: string)
    ensures Lower(a) == Lower(b) <==>
      |a| == |b| && forall i :: 0 <= i < |a| ==> SameIgnoringAsciiCase(a[i], b[i])
  {
    if Lower(a) == Lower(b) {
      forall i | 0 <= i < |a| ensures SameIgnoringAsciiCase(a[i], b[i]) {
        assert Lower(a)[i] == Lower(b)[i];
        LowerCharEqualIff(a[i], b[i]);
      }
    }
    if |a| == |b| && forall i :: 0 <= i < |a| ==> SameIgnoringAsciiCase(a[i], b[i]) {
      forall i | 0 <= i < |a| ensures Lower(a)[i] == Lower(b)[i] {
        LowerCharEqualIff(a[i], b[i]);
      }
    }
  }

  /** Lowercasing twice is lowercasing once. */
  lemma LowerIdempotent(s: string)
    ensures Lower(Lower(s)) == Lower(s)
  {
  }

  /** A string without ASCII upper-case letters is its own lowercase form. */
  lemma LowerOfLowercase(s: string)
    requires forall i :: 0 <= i < |s| ==> !('A' <= s[i] <= 'Z')
    ensures Lower(s) == s
  {
  }

  /** Lowercasing both sides keeps an exact-case occurrence. */
  lemma LowerPreservesContains(s: string, q: string)
    requires Contains(s, q)
    ensures Contains(Lower(s), Lower(q))
  {
    var i :| 0 <= i <= |s| - |q| && OccursAt(s, q, i);
    assert forall k :: 0 <= k < |q| ==> Lower(s)[i..i + |q|][k] == Lower(q)[k] by {
      forall k | 0 <= k < |q| ensures Lower(s)[i..i + |q|][k] == Lower(q)[k] {
        assert s[i + k] == s[i..i + |q|][k];
      }
    }
    assert OccursAt(Lower(s), Lower(q), i);
  }

  /** Index of the first '\n' in `s`, or `|s|` when there is none. */
  function NewlineIndex(s: string): (k: nat)
    ensures k <= |s|
    ensures k < |s| ==> s[k] == '\n'
    ensures forall i :: 0 <= i < k ==> s[i] != '\n'
    decreases |s|
  {
    if s == [] || s[0] == '\n' then 0 else 1 + NewlineIndex(s[1..])
  }

  /** A position holding '\n' with none before it is the first newline. */
  lemma NewlineIndexAt(s: string, k: nat)
    requires k < |s| && s[k] == '\n'
    requires forall i :: 0 <= i < k ==> s[i] != '\n'
    ensures NewlineIndex(s) == k
  {
  }

  /** A line terminated by '\n' is the first line, and the lines after it follow. */
  lemma LinesCons(line: string, rest: string)
    requires '\n' !in line
    ensures Lines(line + "\n" + rest) == [StripCarriageReturn(line)] + Lines(rest)
  {
    var s := line + "\n" + rest;
    NewlineIndexAt(s, |line|);
    assert s[..|line|] == line;
    assert s[|line| + 1..] == rest;
  }

  /** Removes the '\r' of a "\r\n" terminator once the '\n' is gone. */
  function StripCarriageReturn(line: string): string {
    if line != [] && line[|line| - 1] == '\r' then line[..|line| - 1] else line
  }

  /**
   `str::lines`: the text is cut after every '\n'; each piece loses its '\n' and
   then one '\r' before it; a last piece without '\n' is kept as it is, and no
   empty piece follows a final '\n'.
   */
  function Lines(s: string): (r: seq<string>)
    ensures forall k :: 0 <= k < |r| ==> '\n' !in r[k]
    ensures s == [] <==> r == []
    decreases |s|
  {
    if s == [] then []
    else
      var k := NewlineIndex(s);
      if k == |s| then [s]
      else [StripCarriageReturn(s[..k])] + Lines(s[k + 1..])
  }

  /** `s` is non-empty and its last character is not '\n': its last line is unterminated. */
  predicate EndsUnterminated(s: string) {
    s != [] && s[|s| - 1] != '\n'
  }

  /** One line per '\n', plus one for an unterminated last line. */
  lemma {:induction false} LineCount(s: string)
    ensures |Lines(s)| == multiset(s)['\n'] + (if EndsUnterminated(s) then 1 else 0)
    decreases |s|
  {
    if s != [] {
      var k := NewlineIndex(s);
      if k == |s| {
        assert '\n' !in s;
      } else {
        var rest := s[k + 1..];
        assert s == s[..k] + [s[k]] + rest;
        assert '\n' !in s[..k];
        LineCount(rest);
        if rest != [] {
          assert s[|s| - 1] == rest[|rest| - 1];
        }
      }
    }
  }

  /** Appending "\r\n" to an unterminated last line adds no line. */
  lemma {:induction false} CrLfTerminatorAddsNoLine(s: string)
    requires EndsUnterminated(s)
    ensures Lines(s + "\r\n") == Lines(s)
    decreases |s|
  {
    var t := s + "\r\n";
    var k := NewlineIndex(s);
    if k == |s| {
      NewlineIndexAt(t, |s| + 1);
      assert t[..|s| + 1] == s + "\r";
      assert t[|s| + 2..] == [];
    } else {
      NewlineIndexAt(t, k);
      var rest := s[k + 1..];
      assert rest != [] && rest[|rest| - 1] == s[|s| - 1];
      assert t[k + 1..] == rest + "\r\n";
      assert t[..k] == s[..k];
      CrLfTerminatorAddsNoLine(rest);
    }
  }

  /** Appending "\n" adds no line, unless the last line ends in '\r' (which '\n' then strips). */
  lemma {:induction false} LfTerminatorAddsNoLine(s: string)
    requires EndsUnterminated(s) && s[|s| - 1] != '\r'
    ensures Lines(s + "\n") == Lines(s)
    decreases |s|
  {
    var t := s + "\n";
    var k := NewlineIndex(s);
    if k == |s| {
      NewlineIndexAt(t, |s|);
      assert t[..|s|] == s;
      assert t[|s| + 1..] == [];
    } else {
      NewlineIndexAt(t, k);
      var rest := s[k + 1..];
      assert rest != [] && rest[|rest| - 1] == s[|s| - 1];
      assert t[k + 1..] == rest + "\n";
      assert t[..k] == s[..k];
      LfTerminatorAddsNoLine(rest);
    }
  }

  /** The text made of the lines `ls`, each followed by `ending`. */
  function Terminated(ls: seq<string>, ending: string): string
    decreases |ls|
  {
    if ls == [] then [] else ls[0] + ending + Terminated(ls[1..], ending)
  }

  /** A line that `Lines` can give back unchanged after `ending`. */
  predicate RecoverableLine(line: string, ending: string) {
    '\n' !in line && (ending == "\n" ==> line == [] || line[|line| - 1] != '\r')
  }

  /** Splitting a text written with "\n" or "\r\n" terminators gives back its lines. */
  lemma {:induction false} LinesOfTerminated(ls: seq<string>, ending: string)
    requires ending == "\n" || ending == "\r\n"
    requires forall k :: 0 <= k < |ls| ==> RecoverableLine(ls[k], ending)
    ensures Lines(Terminated(ls, ending)) == ls
    decreases |ls|
  {
    if ls != [] {
      var l, rest := ls[0], Terminated(ls[1..], ending);
      assert RecoverableLine(l, ending);
      assert Terminated(ls, ending) == l + ending + rest;
      if ending == "\n" {
        LinesCons(l, rest);
      } else {
        assert l + ending + rest == (l + "\r") + "\n" + rest;
        assert '\n' !in l + "\r";
        LinesCons(l + "\r", rest);
        assert StripCarriageReturn(l + "\r") == l;
      }
      LinesOfTerminated(ls[1..], ending);
    }
  }

  /** A text without '\r' is its lines, each followed by "\n", up to a missing final '\n'. */
  lemma {:induction false} TerminatedOfLines(s: string)
    requires '\r' !in s
    ensures Terminated(Lines(s), "\n") == if EndsUnterminated(s) then s + "\n" else s
    decreases |s|
  {
    if s != [] {
      var k := NewlineIndex(s);
      if k == |s| {
        assert Lines(s) == [s];
        TerminatedCons(s, [], "\n");
        assert s[|s| - 1] != '\n';
      } else {
        var line, rest := s[..k], s[k + 1..];
        assert s == line + "\n" + rest;
        assert Lines(s) == [line] + Lines(rest) by {
          assert StripCarriageReturn(line) == line;
        }
        TerminatedOfLines(rest);
        TerminatedCons(line, Lines(rest), "\n");
        PrependLine(line, rest);
      }
    }
  }

  /** Putting a terminated line in front of a text keeps the "missing final '\n'" rule. */
  lemma PrependLine(line: string, rest: string)
    ensures line + "\n" + (if EndsUnterminated(rest) then rest + "\n" else rest)
      == var s := line + "\n" + rest; if EndsUnterminated(s) then s + "\n" else s
  {
  }

  lemma TerminatedCons(l: string, ls: seq<string>, ending: string)
    ensures Terminated([l] + ls, ending) == l + ending + Terminated(ls, ending)
  {
  }

  /** The first two characters of a contained string stand side by side in the containing one. */
  lemma PairOfContained(s: string, q: string)
    requires 2 <= |q|
    ensures Contains(s, q) ==> exists i :: 0 <= i < |s| - 1 && s[i] == q[0] && s[i + 1] == q[1]
  {
    if Contains(s, q) {
      var i :| 0 <= i <= |s| - |q| && OccursAt(s, q, i);
      assert s[i..i + |q|][0] == s[i] && s[i..i + |q|][1] == s[i + 1];
    }
  }

  /** Every character of a contained string occurs in the containing one. */
  lemma CharsOfContained(s: string, q: string, k: nat)
    requires k < |q|
    ensures Contains(s, q) ==> q[k] in s
  {
  }
}
