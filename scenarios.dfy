/**
 The scenarios of minigrep's unit tests and the resolver's cases, each
 stated as a lemma about the model.
 */
module Scenarios {
  import opened Text
  import opened Engine
  import opened Cli

  /** The contents used by minigrep's unit tests. */
  const TestContents: string := "Rust:\nsafe, fast, productive.\nPick three."

  /** minigrep's unit test `one_result`, and the same contents under the case-sensitive query "rUsT". */
  lemma OneResult()
    ensures Search("duct", TestContents) == [Match(2, "safe, fast, productive.")]
    ensures Search("rUsT", TestContents) == []
  {
    var all := TestMatches();
    DuctOnlyInLineTwo();
    RUsTNowhere();
    KeepThree(all[0], all[1], all[2], line => Contains(line, "duct"));
    KeepThree(all[0], all[1], all[2], line => Contains(line, "rUsT"));
  }

  /** Of the test lines, only the second contains "duct". */
  lemma DuctOnlyInLineTwo()
    ensures !Contains("Rust:", "duct")
    ensures Contains("safe, fast, productive.", "duct")
    ensures !Contains("Pick three.", "duct")
  {
    assert OccursAt("safe, fast, productive.", "duct", 15);
    CharsOfContained("Rust:", "duct", 0);
    CharsOfContained("Pick three.", "duct", 0);
  }

  /** No test line contains "rUsT" in exactly that case: none has an upper-case 'U'. */
  lemma RUsTNowhere()
    ensures !Contains("Rust:", "rUsT")
    ensures !Contains("safe, fast, productive.", "rUsT")
    ensures !Contains("Pick three.", "rUsT")
  {
    CharsOfContained("Rust:", "rUsT", 1);
    CharsOfContained("safe, fast, productive.", "rUsT", 1);
    CharsOfContained("Pick three.", "rUsT", 1);
  }

  /** minigrep's unit test `case_insensitive`: only line 1 matches "rUsT", with its original text. */
  lemma CaseInsensitiveResult()
    ensures SearchCaseInsensitive("rUsT", TestContents) == [Match(1, "Rust:")]
  {
    var all := TestMatches();
    LowerRustOnlyInLineOne();
    KeepThree(all[0], all[1], all[2], line => Contains(Lower(line), Lower("rUsT")));
  }

  /** Once lowercased, only the first test line contains the lowercased "rUsT". */
  lemma LowerRustOnlyInLineOne()
    ensures Contains(Lower("Rust:"), Lower("rUsT"))
    ensures !Contains(Lower("safe, fast, productive."), Lower("rUsT"))
    ensures !Contains(Lower("Pick three."), Lower("rUsT"))
  {
    LowerTestLines();
    assert OccursAt("rust:", "rust", 0);
    PairOfContained("safe, fast, productive.", "rust");
    CharsOfContained("pick three.", "rust", 1);
  }

  /** The lowercase forms of the test query and lines. */
  lemma LowerTestLines()
    ensures Lower("rUsT") == "rust"
    ensures Lower("Rust:") == "rust:"
    ensures Lower("safe, fast, productive.") == "safe, fast, productive."
    ensures Lower("Pick three.") == "pick three."
  {
  }

  /** Filtering three matches. */
  lemma KeepThree(a: Match, b: Match, c: Match, p: string -> bool)
    ensures Keep([a, b, c], p) ==
      (if p(a.text) then [a] else []) + (if p(b.text) then [b] else []) + (if p(c.text) then [c] else [])
  {
    KeepCons(a, [b, c], p);
    KeepCons(b, [c], p);
    KeepCons(c, [], p);
  }

  /** Filtering a sequence with a known first match. */
  lemma KeepCons(m: Match, ms: seq<Match>, p: string -> bool)
    ensures Keep([m] + ms, p) == (if p(m.text) then [m] else []) + Keep(ms, p)
  {
  }

  /** The numbered lines of the test contents. */
  lemma TestMatches() returns (all: seq<Match>)
    ensures all == SearchIter(TestContents)
    ensures all == [Match(1, "Rust:"), Match(2, "safe, fast, productive."), Match(3, "Pick three.")]
  {
    TestLines();
    all := SearchIter(TestContents);
  }

  /** The three lines of the test contents. */
  lemma TestLines()
    ensures Lines(TestContents) == ["Rust:", "safe, fast, productive.", "Pick three."]
  {
    assert TestContents == "Rust:" + "\n" + ("safe, fast, productive." + "\n" + "Pick three.");
    LinesOfThree("Rust:", "safe, fast, productive.", "Pick three.");
  }

  /** Two terminated lines and an unterminated one. */
  lemma LinesOfThree(a: string, b: string, c: string)
    requires '\n' !in a && '\n' !in b && '\n' !in c && c != []
    requires StripCarriageReturn(a) == a && StripCarriageReturn(b) == b
    ensures Lines(a + "\n" + (b + "\n" + c)) == [a, b, c]
  {
    LinesCons(a, b + "\n" + c);
    LinesCons(b, c);
    assert NewlineIndex(c) == |c|;
  }

  /** The resolver scenarios: one argument, a bad flag, an empty flag, no flag with and without the variable. */
  lemma ResolverScenarios()
    ensures NewConfig(["minigrep"], false) == Err(MissingQuery)
    ensures NewConfig(["minigrep", "hello"], false) == Err(MissingFilename)
    ensures NewConfig(["minigrep", "hello", "file.txt", "-x"], false) == Err(IllegalArguments)
    ensures NewConfig(["minigrep", "hello", "file.txt", ""], true) == Err(IllegalArguments)
    ensures NewConfig(["minigrep", "hello", "file.txt"], false) == Ok(Config("hello", "file.txt", true))
    ensures NewConfig(["minigrep", "hello", "file.txt"], true) == Ok(Config("hello", "file.txt", false))
  {
  }
}
