/**
 * lib/answer-validation.ts: grading a typed answer against the stored one, and
 * reading the "Correct: X/Y" summary out of a submission response.
 */
module AnswerValidation {
  import opened Wrappers
  import opened Decimal

  // ---------------------------------------------------------------------------
  // String.prototype.trim

  /**
   * The characters String.prototype.trim removes: ECMAScript WhiteSpace (tab,
   * vertical tab, form feed, no-break space, byte-order mark and the Zs space
   * separators) and LineTerminator (LF, CR, U+2028, U+2029).
   */
  predicate IsWhite(c: char) {
    var k := c as int;
    k == 0x09 || k == 0x0A || k == 0x0B || k == 0x0C || k == 0x0D || k == 0x20
    || k == 0xA0 || k == 0x1680 || (0x2000 <= k <= 0x200A) || k == 0x2028 || k == 0x2029
    || k == 0x202F || k == 0x205F || k == 0x3000 || k == 0xFEFF
  }

  predicate AllWhite(s: string) {
    forall i :: 0 <= i < |s| ==> IsWhite(s[i])
  }

  /** The number of white-space characters at the start of s. */
  function LeadingWhite(s: string): (n: nat)
    ensures n <= |s|
    ensures forall i :: 0 <= i < n ==> IsWhite(s[i])
    ensures n == |s| || !IsWhite(s[n])
  {
    if |s| > 0 && IsWhite(s[0]) then 1 + LeadingWhite(s[1..]) else 0
  }

  /** The number of white-space characters at the end of s. */
  function TrailingWhite(s: string): (n: nat)
    ensures n <= |s|
    ensures forall i :: |s| - n <= i < |s| ==> IsWhite(s[i])
    ensures n == |s| || !IsWhite(s[|s| - n - 1])
  {
    if |s| > 0 && IsWhite(s[|s| - 1]) then 1 + TrailingWhite(s[..|s| - 1]) else 0
  }

  /** The leading white-space count is pinned down by where the first other character is. */
  lemma LeadingWhiteUnique(s: string, k: nat)
    requires k <= |s| && (forall i :: 0 <= i < k ==> IsWhite(s[i]))
    requires k == |s| || !IsWhite(s[k])
    ensures LeadingWhite(s) == k
  {
  }

  /** The trailing white-space count is pinned down by where the last other character is. */
  lemma TrailingWhiteUnique(s: string, k: nat)
    requires k <= |s| && (forall i :: |s| - k <= i < |s| ==> IsWhite(s[i]))
    requires k == |s| || !IsWhite(s[|s| - k - 1])
    ensures TrailingWhite(s) == k
  {
  }

  function TrimStart(s: string): string {
    s[LeadingWhite(s)..]
  }

  function TrimEnd(s: string): string {
    s[..|s| - TrailingWhite(s)]
  }

  /** String.prototype.trim. */
  function Trim(s: string): (r: string)
    ensures r == [] || (!IsWhite(r[0]) && !IsWhite(r[|r| - 1]))
  {
    TrimEnd(TrimStart(s))
  }

  /** White space in front makes no difference to TrimStart, unless everything is white. */
  lemma TrimStartWhitePrefix(w: string, s: string)
    requires AllWhite(w)
    ensures TrimStart(w + s) == TrimStart(s)
  {
    var t := w + s;
    var ls := LeadingWhite(s);
    forall i | 0 <= i < |w| + ls
      ensures IsWhite(t[i])
    {
      if i < |w| {
        assert t[i] == w[i];
      } else {
        assert t[i] == s[i - |w|];
      }
    }
    if ls < |s| {
      assert t[|w| + ls] == s[ls];
    }
    LeadingWhiteUnique(t, |w| + ls);
    calc {
      TrimStart(t);
      t[|w| + ls..];
      s[ls..];
      TrimStart(s);
    }
  }

  /** White space behind makes no difference to TrimEnd, when the string starts with something else. */
  lemma TrimEndWhiteSuffix(u: string, w: string)
    requires AllWhite(w) && u != [] && !IsWhite(u[0])
    ensures TrimEnd(u + w) == TrimEnd(u)
  {
    var v := u + w;
    var tu := TrailingWhite(u);
    assert tu < |u|;
    forall i | |v| - (tu + |w|) <= i < |v|
      ensures IsWhite(v[i])
    {
      if i < |u| {
        assert v[i] == u[i];
      } else {
        assert v[i] == w[i - |u|];
      }
    }
    assert v[|v| - (tu + |w|) - 1] == u[|u| - tu - 1];
    TrailingWhiteUnique(v, tu + |w|);
    assert v[..|v| - (tu + |w|)] == u[..|u| - tu];
  }

  /** trim() ignores white space added on either side. */
  lemma TrimPadded(w1: string, s: string, w2: string)
    requires AllWhite(w1) && AllWhite(w2)
    ensures Trim(w1 + s + w2) == Trim(s)
  {
    var t := w1 + s + w2;
    if LeadingWhite(s) == |s| {
      // s is all white space, so everything is trimmed away
      forall i | 0 <= i < |t|
        ensures IsWhite(t[i])
      {
        if i < |w1| {
          assert t[i] == w1[i];
        } else if i < |w1| + |s| {
          assert t[i] == s[i - |w1|];
        } else {
          assert t[i] == w2[i - |w1| - |s|];
        }
      }
      LeadingWhiteUnique(t, |t|);
    } else {
      assert t == w1 + (s + w2);
      TrimStartWhitePrefix(w1, s + w2);
      var u := TrimStart(s);
      assert TrimStart(s + w2) == u + w2 by {
        LeadingWhiteUnique(s + w2, LeadingWhite(s));
      }
      TrimEndWhiteSuffix(u, w2);
    }
  }

  // ---------------------------------------------------------------------------
  // isAnswerCorrect

  /** Starts and ends with a double quote (a lone quote counts as both). */
  predicate Quoted(s: string) {
    |s| >= 1 && s[0] == '"' && s[|s| - 1] == '"'
  }

  /** slice(1, -1): drop the first and last character; empty when fewer than two. */
  function Unquote(s: string): (r: string)
    ensures |s| >= 2 ==> r == s[1..|s| - 1]
    ensures |s| < 2 ==> r == []
  {
    if |s| >= 2 then s[1..|s| - 1] else []
  }

  /**
   * isAnswerCorrect: trim both, strip one surrounding pair of double quotes from
   * the stored answer only, then compare exactly (case-sensitively).
   */
  function IsAnswerCorrect(userAnswer: string, correctAnswer: string): (ok: bool)
    ensures ok <==> AcceptedForm(Trim(userAnswer), Trim(correctAnswer))
  {
    var normalizedUserAnswer := Trim(userAnswer);
    var normalizedCorrectAnswer := Trim(correctAnswer);
    var cleanCorrectAnswer :=
      if Quoted(normalizedCorrectAnswer) then Unquote(normalizedCorrectAnswer)
      else normalizedCorrectAnswer;
    UnquoteForm(normalizedUserAnswer, normalizedCorrectAnswer);
    normalizedUserAnswer == cleanCorrectAnswer
  }

  /**
   * The stored answer t accepts the submitted answer u (both trimmed) when t is u
   * itself and u is not wrapped in quotes, when t is u wrapped in one pair of
   * double quotes, or when t is a lone double quote and u is empty.
   */
  predicate AcceptedForm(u: string, t: string) {
    || (t == u && !Quoted(u))
    || t == "\"" + u + "\""
    || (t == "\"" && u == [])
  }

  /** Comparing with the unquoted stored answer is comparing with the AcceptedForm. */
  lemma UnquoteForm(u: string, t: string)
    ensures (u == if Quoted(t) then Unquote(t) else t) <==> AcceptedForm(u, t)
  {
    if Quoted(t) && |t| >= 2 {
      if u == Unquote(t) {
        assert t == "\"" + u + "\"";
      }
      if t == "\"" + u + "\"" {
        assert Unquote(t) == u;
      }
    } else if Quoted(t) {
      assert t == "\"";
    }
  }

  /** Grading is insensitive to white space around either argument. */
  lemma GradingIgnoresPadding(w1: string, u: string, w2: string, w3: string, c: string, w4: string)
    requires AllWhite(w1) && AllWhite(w2) && AllWhite(w3) && AllWhite(w4)
    ensures IsAnswerCorrect(w1 + u + w2, w3 + c + w4) == IsAnswerCorrect(u, c)
  {
    TrimPadded(w1, u, w2);
    TrimPadded(w3, c, w4);
  }

  /** An answer graded against itself passes exactly when its trimmed form is not quoted. */
  lemma SelfGrading(x: string)
    ensures IsAnswerCorrect(x, x) <==> !Quoted(Trim(x))
  {
    var t := Trim(x);
    if Quoted(t) {
      assert |Unquote(t)| < |t|;
    }
  }

  /** A string that neither starts nor ends with white space is its own trim. */
  lemma TrimUnpadded(s: string)
    requires s == [] || (!IsWhite(s[0]) && !IsWhite(s[|s| - 1]))
    ensures Trim(s) == s
  {
    LeadingWhiteUnique(s, 0);
    assert TrimStart(s) == s;
    TrailingWhiteUnique(s, 0);
  }

  /** The quotes around a stored answer are stripped... */
  lemma StoredQuotesStripped()
    ensures IsAnswerCorrect("12", "\"12\"")
  {
    var stored := "\"12\"";
    TrimUnpadded("12");
    TrimUnpadded(stored);
    assert Quoted(stored);
    assert stored[1..3] == "12";
  }

  /** ...but not those around a submitted answer. */
  lemma SubmittedQuotesKept()
    ensures !IsAnswerCorrect("\"12\"", "12")
  {
    TrimUnpadded("12");
    TrimUnpadded("\"12\"");
    assert !Quoted("12");
    assert "\"12\""[0] != "12"[0];
  }

  /** White space around the submitted answer does not matter. */
  lemma PaddedQuoteExample()
    ensures IsAnswerCorrect("  12 ", "\"12\"")
  {
    LeadingWhiteUnique("  12 ", 2);
    assert TrimStart("  12 ") == "12 ";
    TrailingWhiteUnique("12 ", 1);
    assert Trim("  12 ") == "12";
    StoredQuotesStripped();
  }

  /** Comparison is case-sensitive. */
  lemma CaseExample()
    ensures !IsAnswerCorrect("Paris", "paris")
  {
    TrimUnpadded("Paris");
    TrimUnpadded("paris");
    assert "Paris"[0] != "paris"[0];
  }

  /** A lone double quote as the stored answer strips to the empty string. */
  lemma LoneQuoteExample(w: string)
    requires AllWhite(w)
    ensures IsAnswerCorrect(w, "\"")
  {
    assert w == w + [] + [];
    TrimPadded(w, [], []);
    TrimUnpadded("\"");
  }

  // ---------------------------------------------------------------------------
  // analyzeSubmissionResult

  /** The literal part of /Correct: (\d+)\/(\d+)/ before the first group. */
  const Label: string := "Correct: "

  /** The length of the run of digits starting at i. */
  function DigitRun(s: string, i: nat): (n: nat)
    requires i <= |s|
    ensures i + n <= |s| && AllDigits(s[i..i + n])
    ensures i + n == |s| || !IsDigit(s[i + n])
    decreases |s| - i
  {
    if i < |s| && IsDigit(s[i]) then
      var rest := DigitRun(s, i + 1);
      assert s[i..i + 1 + rest] == [s[i]] + s[i + 1..i + 1 + rest];
      1 + rest
    else 0
  }

  /**
   * The two groups of /Correct: (\d+)\/(\d+)/ matched at position p, if the
   * pattern matches there. The first \d+ cannot swallow the '/', so it is the
   * whole digit run; the second is greedy, so it is the whole run too.
   */
  function MatchAt(s: string, p: nat): Option<(nat, nat)>
    requires p <= |s|
  {
    if p + |Label| <= |s| && s[p..p + |Label|] == Label then
      var a := p + |Label|;
      var n1 := DigitRun(s, a);
      if n1 > 0 && a + n1 < |s| && s[a + n1] == '/' then
        var b := a + n1 + 1;
        var n2 := DigitRun(s, b);
        if n2 > 0 then Some((Value(s[a..a + n1]), Value(s[b..b + n2]))) else None
      else None
    else None
  }

  /**
   * The pattern /Correct: (\d+)\/(\d+)/ read as a pattern: at p, the label, n1 > 0
   * digits, a '/', and n2 > 0 digits.
   */
  predicate PatternAt(s: string, p: nat, n1: nat, n2: nat) {
    var a := p + |Label|;
    var b := a + n1 + 1;
    && b + n2 <= |s| && s[p..a] == Label
    && n1 > 0 && AllDigits(s[a..a + n1]) && s[a + n1] == '/'
    && n2 > 0 && AllDigits(s[b..b + n2])
  }

  /**
   * Wherever the pattern can match, MatchAt succeeds, with the one possible first
   * group and the longest second group (\d+ is greedy).
   */
  lemma PatternMatches(s: string, p: nat, n1: nat, n2: nat)
    requires PatternAt(s, p, n1, n2)
    ensures n2 <= DigitRun(s, p + |Label| + n1 + 1)
    ensures MatchAt(s, p) == Some((Value(s[p + |Label|..p + |Label| + n1]), Value(s[p + |Label| + n1 + 1..p + |Label| + n1 + 1 + DigitRun(s, p + |Label| + n1 + 1)])))
  {
    var a := p + |Label|;
    DigitRunExact(s, a, n1);
    DigitRunAtLeast(s, a + n1 + 1, n2);
  }

  /** A pattern that ends the string matches with the second group running to the end. */
  lemma WholeMatch(s: string, n1: nat, n2: nat)
    requires PatternAt(s, 0, n1, n2) && |Label| + n1 + 1 + n2 == |s|
    ensures MatchAt(s, 0) == Some((Value(s[|Label|..|Label| + n1]), Value(s[|Label| + n1 + 1..])))
  {
    var b := |Label| + n1 + 1;
    PatternMatches(s, 0, n1, n2);
    assert DigitRun(s, b) == n2;
    assert s[b..b + DigitRun(s, b)] == s[b..];
  }

  /** On `Correct: <d1>/<d2>` with two digit strings, the pattern matches at the start with the two strings as groups. */
  lemma MatchLabelled(s1: string, s2: string)
    requires |s1| > 0 && AllDigits(s1) && |s2| > 0 && AllDigits(s2)
    ensures MatchAt(Label + s1 + "/" + s2, 0) == Some((Value(s1), Value(s2)))
  {
    var m := Label + s1 + "/" + s2;
    var a := |Label|;
    var b := a + |s1| + 1;
    assert |m| == b + |s2|;
    assert m[0..a] == Label;
    assert m[a..a + |s1|] == s1;
    assert m[a + |s1|] == '/';
    assert m[b..] == s2;
    assert m[b..b + |s2|] == s2;
    WholeMatch(m, |s1|, |s2|);
  }

  /** MatchAt succeeds exactly where the pattern can match. */
  lemma MatchAtIff(s: string, p: nat)
    requires p <= |s|
    ensures MatchAt(s, p).Some? <==> exists n1: nat, n2: nat :: PatternAt(s, p, n1, n2)
  {
    var a := p + |Label|;
    if MatchAt(s, p).Some? {
      var n1 := DigitRun(s, a);
      assert PatternAt(s, p, n1, DigitRun(s, a + n1 + 1));
    }
    if exists n1: nat, n2: nat :: PatternAt(s, p, n1, n2) {
      var n1: nat, n2: nat :| PatternAt(s, p, n1, n2);
      PatternMatches(s, p, n1, n2);
    }
  }

  /**
   * Where the leftmost match at or after position p starts, if there is one
   * (String.prototype.match without the g flag reports the leftmost match).
   */
  function FindMatch(s: string, p: nat): (r: Option<nat>)
    requires p <= |s|
    ensures r.None? ==> forall q :: p <= q <= |s| ==> MatchAt(s, q).None?
    ensures r.Some? ==> p <= r.value <= |s| && MatchAt(s, r.value).Some?
    ensures r.Some? ==> forall q :: p <= q < r.value ==> MatchAt(s, q).None?
    decreases |s| - p
  {
    if MatchAt(s, p).Some? then Some(p)
    else if p == |s| then None
    else FindMatch(s, p + 1)
  }

  datatype SubmissionAnalysis = SubmissionAnalysis(
    isCorrect: bool,
    isNewlyCorrect: bool,
    correctCount: int,
    totalCount: int,
    messageParsed: bool)

  /** analyzeSubmissionResult over the response's xp and message fields. */
  function AnalyzeSubmissionResult(xp: int, message: string): (r: SubmissionAnalysis)
    ensures r.messageParsed <==> exists q :: 0 <= q <= |message| && MatchAt(message, q).Some?
    ensures !r.messageParsed ==>
      r == SubmissionAnalysis(xp > 0, xp > 0, 0, 1, false)
    ensures r.messageParsed ==>
      r.isCorrect && r.correctCount >= 0 && r.totalCount >= 0
      && (r.isNewlyCorrect <==> r.correctCount > 0)
    ensures r.messageParsed ==>
      exists q :: 0 <= q <= |message| && MatchAt(message, q).Some?
        && MatchAt(message, q).value.0 == r.correctCount && MatchAt(message, q).value.1 == r.totalCount
        && forall q' :: 0 <= q' < q ==> MatchAt(message, q').None?
  {
    match FindMatch(message, 0)
    case None =>
      SubmissionAnalysis(xp > 0, xp > 0, 0, 1, false)
    case Some(q) =>
      var (correctCount, totalCount) := MatchAt(message, q).value;
      SubmissionAnalysis(correctCount >= 0, correctCount > 0, correctCount, totalCount, true)
  }

  /** A digit run that is followed by a non-digit (or the end) is exactly what DigitRun measures. */
  lemma {:induction false} DigitRunExact(s: string, i: nat, k: nat)
    requires i + k <= |s| && AllDigits(s[i..i + k])
    requires i + k == |s| || !IsDigit(s[i + k])
    ensures DigitRun(s, i) == k
    decreases k
  {
    if k > 0 {
      assert IsDigit(s[i..i + k][0]);
      assert s[i + 1..i + k] == s[i..i + k][1..];
      DigitRunExact(s, i + 1, k - 1);
    }
  }

  /** A run of k digits at i is no longer than the whole digit run there. */
  lemma {:induction false} DigitRunAtLeast(s: string, i: nat, k: nat)
    requires i + k <= |s| && AllDigits(s[i..i + k])
    ensures k <= DigitRun(s, i)
    decreases k
  {
    if k > 0 {
      assert IsDigit(s[i..i + k][0]);
      assert s[i + 1..i + k] == s[i..i + k][1..];
      DigitRunAtLeast(s, i + 1, k - 1);
    }
  }

  /**
   * Wherever "Correct: " is followed by digits, a '/' and another digit, the
   * pattern matches there and its first group is exactly those digits: \d+ has no
   * other way to reach the '/'.
   */
  lemma MatchAtFirstGroup(s: string, p: nat, k: nat)
    requires p + |Label| + k + 1 < |s| && s[p..p + |Label|] == Label
    requires k > 0 && AllDigits(s[p + |Label|..p + |Label| + k])
    requires s[p + |Label| + k] == '/' && IsDigit(s[p + |Label| + k + 1])
    ensures MatchAt(s, p).Some?
    ensures MatchAt(s, p).value.0 == Value(s[p + |Label|..p + |Label| + k])
  {
    DigitRunExact(s, p + |Label|, k);
  }

  /** Without a capital C there is nothing to parse, so the XP rule decides. */
  lemma NoLabelNoParse(xp: int, message: string)
    requires 'C' !in message
    ensures AnalyzeSubmissionResult(xp, message) == SubmissionAnalysis(xp > 0, xp > 0, 0, 1, false)
  {
    forall q | 0 <= q <= |message|
      ensures MatchAt(message, q).None?
    {
      if q + |Label| <= |message| {
        assert message[q..q + |Label|][0] == message[q];
      }
    }
  }

  /** The replay message "Attempt already processed" falls back to the XP rule. */
  lemma ReplayMessageFallsBack(xp: int)
    ensures AnalyzeSubmissionResult(xp, "Attempt already processed")
         == SubmissionAnalysis(xp > 0, xp > 0, 0, 1, false)
  {
    NoLabelNoParse(xp, "Attempt already processed");
  }
}
