/**
 * The bot's Markdown massaging: `replace_asterisks` (two regular-expression substitutions) and
 * the substitutions of `escape_markdown`, each written out as the left-to-right scan Python's
 * `re.sub` performs.
 */
module BotMarkdown {
  import opened Wrappers
  import opened PyText

  /**
   * The replacement text of the first substitution. The source file holds the UTF-8 bytes of a
   * bullet read back as Windows-1252, so the Python string is these four characters.
   */
  const Bullet: string := "\U{E2}\U{20AC}\U{A2} "

  // ---------------------------------------------------------------------------------------
  // First pass: `(?<!\*)\*(?!\*)(.*?)` replaced by the bullet. The lazy group always matches
  // the empty string, so each match is one asterisk with no asterisk on either side of it in
  // the string being rewritten.

  predicate IsLoneStar(s: string, i: nat) {
    && i < |s| && s[i] == '*'
    && (i == 0 || s[i - 1] != '*')
    && (i + 1 == |s| || s[i + 1] != '*')
  }

  predicate NoLoneStar(s: string) {
    forall i :: 0 <= i < |s| ==> !IsLoneStar(s, i)
  }

  /** The substitution from index `i` on; the look-arounds read the original string `s`. */
  function LoneStarPassFrom(s: string, i: nat): string
    requires i <= |s|
    decreases |s| - i
  {
    if i == |s| then []
    else (if IsLoneStar(s, i) then Bullet else [s[i]]) + LoneStarPassFrom(s, i + 1)
  }

  function LoneStarPass(s: string): string {
    LoneStarPassFrom(s, 0)
  }

  /** The length of the run of `c` characters that `s` starts with (`\*+` or `#+`, greedy). */
  function CharRun(s: string, c: char): (n: nat)
    ensures n <= |s|
    ensures forall k :: 0 <= k < n ==> s[k] == c
    ensures n == |s| || s[n] != c
  {
    if s == [] || s[0] != c then 0 else 1 + CharRun(s[1..], c)
  }

  /**
   * An independent reading of the first pass, run by run: a run of exactly one asterisk becomes
   * the bullet, a run of two or more is kept as it is, every other character is kept.
   */
  function BulletRuns(s: string): string
    decreases |s|
  {
    if s == [] then []
    else if s[0] != '*' then [s[0]] + BulletRuns(s[1..])
    else if CharRun(s, '*') == 1 then Bullet + BulletRuns(s[1..])
    else s[..CharRun(s, '*')] + BulletRuns(s[CharRun(s, '*')..])
  }

  /** A stretch without lone asterisks is copied unchanged. */
  lemma {:induction false} NoLoneStarCopied(s: string, i: nat, j: nat)
    requires i <= j <= |s|
    requires forall k :: i <= k < j ==> !IsLoneStar(s, k)
    ensures LoneStarPassFrom(s, i) == s[i..j] + LoneStarPassFrom(s, j)
    decreases j - i
  {
    if i < j {
      assert !IsLoneStar(s, i);
      NoLoneStarCopied(s, i + 1, j);
      calc {
        LoneStarPassFrom(s, i);
        [s[i]] + LoneStarPassFrom(s, i + 1);
        [s[i]] + (s[i + 1..j] + LoneStarPassFrom(s, j));
        ([s[i]] + s[i + 1..j]) + LoneStarPassFrom(s, j);
        { assert s[i..j] == [s[i]] + s[i + 1..j]; }
        s[i..j] + LoneStarPassFrom(s, j);
      }
    }
  }

  /** A run of two or more asterisks holds no lone one, so the first pass copies it. */
  lemma LongStarRunCopied(s: string, i: nat, n: nat)
    requires i + n <= |s| && n >= 2
    requires forall k :: i <= k < i + n ==> s[k] == '*'
    ensures LoneStarPassFrom(s, i) == s[i..i + n] + LoneStarPassFrom(s, i + n)
  {
    forall k | i <= k < i + n
      ensures !IsLoneStar(s, k)
    {
      if k + 1 < i + n { assert s[k + 1] == '*'; } else { assert s[k - 1] == '*'; }
    }
    NoLoneStarCopied(s, i, i + n);
  }

  /** Both readings copy a run of two or more asterisks at `i` and continue after it. */
  lemma LongStarRunStep(s: string, i: nat, n: nat)
    requires i < |s| && s[i] == '*' && n == CharRun(s[i..], '*') && n >= 2
    ensures i + n <= |s| && (i + n == |s| || s[i + n] != '*')
    ensures LoneStarPassFrom(s, i) == s[i..i + n] + LoneStarPassFrom(s, i + n)
    ensures BulletRuns(s[i..]) == s[i..i + n] + BulletRuns(s[i + n..])
  {
    var t := s[i..];
    forall k | i <= k < i + n
      ensures s[k] == '*'
    {
      assert s[k] == t[k - i];
    }
    LongStarRunCopied(s, i, n);
    assert s[i..i + n] == t[..n];
    assert t[n..] == s[i + n..];
    if i + n < |s| { assert s[i + n] == t[n]; }
  }

  /** Both readings turn a character other than `*`, or a lone `*`, into the same text. */
  lemma OneCharStep(s: string, i: nat)
    requires i < |s| && (i == 0 || s[i - 1] != '*' || s[i] != '*')
    requires s[i] != '*' || CharRun(s[i..], '*') == 1
    ensures i + 1 == |s| || s[i] != '*' || s[i + 1] != '*'
    ensures LoneStarPassFrom(s, i) == (if s[i] == '*' then Bullet else [s[i]]) + LoneStarPassFrom(s, i + 1)
    ensures BulletRuns(s[i..]) == (if s[i] == '*' then Bullet else [s[i]]) + BulletRuns(s[i + 1..])
  {
    var t := s[i..];
    assert t[1..] == s[i + 1..];
    if s[i] == '*' {
      if i + 1 < |s| { assert s[i + 1] == t[1]; }
      assert IsLoneStar(s, i);
    }
  }

  lemma {:induction false} PassFromIsBulletRuns(s: string, i: nat)
    requires i <= |s|
    requires i == 0 || i == |s| || s[i - 1] != '*' || s[i] != '*'
    ensures LoneStarPassFrom(s, i) == BulletRuns(s[i..])
    decreases |s| - i
  {
    if i < |s| {
      var n, x := PassStep(s, i);
      PassFromIsBulletRuns(s, i + n);
    }
  }

  /** One step of both readings at `i`: they produce the same `x` and continue at the same place. */
  lemma PassStep(s: string, i: nat) returns (n: nat, x: string)
    requires i < |s| && (i == 0 || s[i - 1] != '*' || s[i] != '*')
    ensures 1 <= n && i + n <= |s| && (i + n == |s| || s[i + n - 1] != '*' || s[i + n] != '*')
    ensures LoneStarPassFrom(s, i) == x + LoneStarPassFrom(s, i + n)
    ensures BulletRuns(s[i..]) == x + BulletRuns(s[i + n..])
  {
    var run := CharRun(s[i..], '*');
    if s[i] != '*' || run == 1 {
      OneCharStep(s, i);
      n := 1;
      x := if s[i] == '*' then Bullet else [s[i]];
      assert LoneStarPassFrom(s, i) == x + LoneStarPassFrom(s, i + n);
      assert BulletRuns(s[i..]) == x + BulletRuns(s[i + n..]);
    } else {
      LongStarRunStep(s, i, run);
      n, x := run, s[i..i + run];
    }
  }

  /** The first pass agrees with the run-by-run reading on every string. */
  lemma LoneStarPassIsBulletRuns(s: string)
    ensures LoneStarPass(s) == BulletRuns(s)
  {
    PassFromIsBulletRuns(s, 0);
    assert s[0..] == s;
  }

  lemma NoLoneStarAppend(a: string, b: string)
    requires NoLoneStar(a) && NoLoneStar(b)
    ensures NoLoneStar(a + b)
  {
    var c := a + b;
    forall i | 0 <= i < |c|
      ensures !IsLoneStar(c, i)
    {
      if i < |a| {
        assert !IsLoneStar(a, i);
      } else {
        assert !IsLoneStar(b, i - |a|);
      }
    }
  }

  lemma {:induction false} BulletRunsHaveNoLoneStar(s: string)
    ensures NoLoneStar(BulletRuns(s))
    decreases |s|
  {
    if s != [] {
      if s[0] != '*' {
        BulletRunsHaveNoLoneStar(s[1..]);
        NoLoneStarAppend([s[0]], BulletRuns(s[1..]));
      } else if CharRun(s, '*') == 1 {
        BulletRunsHaveNoLoneStar(s[1..]);
        NoLoneStarAppend(Bullet, BulletRuns(s[1..]));
      } else {
        var n := CharRun(s, '*');
        var run := s[..n];
        forall i | 0 <= i < |run|
          ensures !IsLoneStar(run, i)
        {
          if i + 1 < n { assert run[i + 1] == '*'; } else { assert run[i - 1] == '*'; }
        }
        BulletRunsHaveNoLoneStar(s[n..]);
        NoLoneStarAppend(run, BulletRuns(s[n..]));
      }
    }
  }

  /** After the first pass no lone asterisk is left. */
  lemma LoneStarPassLeavesNoLoneStar(s: string)
    ensures NoLoneStar(LoneStarPass(s))
  {
    LoneStarPassIsBulletRuns(s);
    BulletRunsHaveNoLoneStar(s);
  }

  /** Asterisks that all sit in runs of two or more survive the first pass: nothing changes. */
  lemma NoLoneStarUnchanged(s: string)
    requires NoLoneStar(s)
    ensures LoneStarPass(s) == s
  {
    NoLoneStarCopied(s, 0, |s|);
    assert s[0..|s|] == s;
  }

  /** Running the first pass again changes nothing. */
  lemma LoneStarPassIdempotent(s: string)
    ensures LoneStarPass(LoneStarPass(s)) == LoneStarPass(s)
  {
    LoneStarPassLeavesNoLoneStar(s);
    NoLoneStarUnchanged(LoneStarPass(s));
  }

  // ---------------------------------------------------------------------------------------
  // Second pass: `\*\*(.*?)\*\*` replaced by `*\1*`. The pattern looks neither behind nor
  // ahead, so the scan is written on suffixes: at each position a match is tried, and after a
  // match the scan resumes where it ended.

  predicate DoubleStarAt(s: string, i: nat) {
    i + 2 <= |s| && s[i] == '*' && s[i + 1] == '*'
  }

  predicate NoDoubleStar(s: string) {
    forall i :: 0 <= i < |s| ==> !DoubleStarAt(s, i)
  }

  /**
   * The lazy `(.*?)\*\*` from index `j`: the first `**` at or after `j` with no newline before
   * it, since `.` stops at a newline.
   */
  function CloseAt(s: string, j: nat): (r: Option<nat>)
    requires j <= |s|
    ensures r.Some? ==> j <= r.value && DoubleStarAt(s, r.value) && Lacks(s[j..r.value], '\n')
    ensures r.Some? ==> forall m :: j <= m < r.value ==> !DoubleStarAt(s, m)
    ensures r.None? ==> forall k :: j <= k && DoubleStarAt(s, k) ==> exists m :: j <= m < k && s[m] == '\n'
    decreases |s| - j
  {
    if DoubleStarAt(s, j) then Some(j)
    else if j + 2 > |s| || s[j] == '\n' then None
    else CloseAt(s, j + 1)
  }

  function BoldPass(s: string): string
    decreases |s|
  {
    if s == [] then []
    else if DoubleStarAt(s, 0) && CloseAt(s, 2).Some? then
      var k := CloseAt(s, 2).value;
      "*" + s[2..k] + "*" + BoldPass(s[k + 2..])
    else [s[0]] + BoldPass(s[1..])
  }

  /** Where no `**` starts, the second pass copies one character and goes on. */
  lemma BoldPassCopiesFirst(s: string)
    requires s != [] && !DoubleStarAt(s, 0)
    ensures BoldPass(s) == [s[0]] + BoldPass(s[1..])
  {
  }

  /** Text in which no match can start is copied: the second pass leaves it untouched. */
  lemma {:induction false} BoldPassPlainPrefix(a: string, rest: string)
    requires NoDoubleStar(a) && (a == [] || a[|a| - 1] != '*')
    ensures BoldPass(a + rest) == a + BoldPass(rest)
    decreases |a|
  {
    if a != [] {
      var s := a + rest;
      var a' := a[1..];
      assert s[0] == a[0];
      if |a| >= 2 {
        assert !DoubleStarAt(a, 0);
        assert s[1] == a[1];
      }
      assert !DoubleStarAt(s, 0);
      BoldPassCopiesFirst(s);
      assert s[1..] == a' + rest;
      forall i | 0 <= i < |a'|
        ensures !DoubleStarAt(a', i)
      {
        assert !DoubleStarAt(a, i + 1);
      }
      BoldPassPlainPrefix(a', rest);
      calc {
        BoldPass(s);
        [a[0]] + BoldPass(a' + rest);
        [a[0]] + (a' + BoldPass(rest));
        { assert [a[0]] + a' == a; }
        a + BoldPass(rest);
      }
    } else {
      assert a + rest == rest;
    }
  }

  /**
   * An opening `**` whose closing `**` is not on its line does not match: its first `*` is
   * copied and the scan goes on from the second.
   */
  lemma BoldPassUnclosed(s: string)
    requires DoubleStarAt(s, 0) && CloseAt(s, 2).None?
    ensures BoldPass(s) == "*" + BoldPass(s[1..])
  {
  }

  /** `**x**` becomes `*x*` when `x` is one line with no `**` inside and no trailing `*`. */
  lemma BoldPassStrong(x: string, rest: string)
    requires Lacks(x, '\n') && NoDoubleStar(x) && (x == [] || x[|x| - 1] != '*')
    ensures BoldPass("**" + x + "**" + rest) == "*" + x + "*" + BoldPass(rest)
  {
    var s := "**" + x + "**" + rest;
    var k := |x| + 2;
    assert DoubleStarAt(s, k);
    forall m | 2 <= m < k
      ensures !DoubleStarAt(s, m) && s[m] != '\n'
    {
      assert s[m] == x[m - 2];
      if m + 1 < k {
        assert s[m + 1] == x[m - 1];
        assert !DoubleStarAt(x, m - 2);
      }
    }
    CloseAtFinds(s, 2, k);
    assert s[2..k] == x;
    assert s[k + 2..] == rest;
  }

  lemma {:induction false} CloseAtFinds(s: string, j: nat, k: nat)
    requires j <= k && DoubleStarAt(s, k)
    requires forall m :: j <= m < k ==> !DoubleStarAt(s, m) && s[m] != '\n'
    ensures CloseAt(s, j) == Some(k)
    decreases k - j
  {
    if j < k {
      CloseAtFinds(s, j + 1, k);
    }
  }

  /** A string with no two adjacent asterisks passes through the second pass unchanged. */
  lemma NoDoubleStarBoldUnchanged(s: string)
    requires NoDoubleStar(s)
    ensures BoldPass(s) == s
  {
    if s != [] && s[|s| - 1] == '*' {
      var a := s[..|s| - 1];
      forall i | 0 <= i < |a| ensures !DoubleStarAt(a, i) { assert !DoubleStarAt(s, i); }
      if a != [] { assert a[|a| - 1] != '*' by { assert !DoubleStarAt(s, |s| - 2); } }
      BoldPassPlainPrefix(a, "*");
      assert s == a + "*";
    } else {
      BoldPassPlainPrefix(s, []);
      assert s + [] == s;
    }
  }

  /** `replace_asterisks`: the bullet pass, then the bold pass on its result. */
  function ReplaceAsterisks(s: string): string {
    BoldPass(LoneStarPass(s))
  }

  /** A message with no asterisk at all is returned unchanged. */
  lemma ReplaceAsterisksStarFree(s: string)
    requires Lacks(s, '*')
    ensures ReplaceAsterisks(s) == s
  {
    assert NoLoneStar(s);
    NoLoneStarUnchanged(s);
    assert NoDoubleStar(s);
    NoDoubleStarBoldUnchanged(s);
  }

  /** A list item as Gemini writes it, `* ` and a line, gets the bullet in front. */
  lemma ReplaceAsterisksListItem(t: string)
    requires Lacks(t, '*')
    ensures ReplaceAsterisks("* " + t) == Bullet + " " + t
  {
    var s := "* " + t;
    assert IsLoneStar(s, 0);
    assert LoneStarPassFrom(s, 0) == Bullet + LoneStarPassFrom(s, 1);
    forall k | 1 <= k < |s|
      ensures !IsLoneStar(s, k)
    {
      if k >= 2 { assert s[k] == t[k - 2]; }
    }
    NoLoneStarCopied(s, 1, |s|);
    assert s[1..|s|] == " " + t;
    assert LoneStarPass(s) == Bullet + " " + t;
    var u := Bullet + " " + t;
    assert Lacks(u, '*');
    assert NoDoubleStar(u);
    NoDoubleStarBoldUnchanged(u);
  }

  // ---------------------------------------------------------------------------------------
  // What the two passes are for: Gemini's `**bold**` becomes the `*bold*` of Telegram's
  // Markdown.

  datatype Span = Plain(text: string) | Strong(text: string)

  function GeminiMarkdown(doc: seq<Span>): string {
    if doc == [] then []
    else (if doc[0].Plain? then doc[0].text else "**" + doc[0].text + "**") + GeminiMarkdown(doc[1..])
  }

  function TelegramMarkdown(doc: seq<Span>): string {
    if doc == [] then []
    else (if doc[0].Plain? then doc[0].text else "*" + doc[0].text + "*") + TelegramMarkdown(doc[1..])
  }

  /** Span texts carry no asterisk, and bold spans stay on one line. */
  predicate SimpleDoc(doc: seq<Span>) {
    forall k :: 0 <= k < |doc| ==> Lacks(doc[k].text, '*') && (doc[k].Strong? ==> Lacks(doc[k].text, '\n'))
  }

  lemma {:induction false} GeminiMarkdownHasNoLoneStar(doc: seq<Span>)
    requires SimpleDoc(doc)
    ensures NoLoneStar(GeminiMarkdown(doc))
  {
    if doc != [] {
      GeminiMarkdownHasNoLoneStar(doc[1..]);
      var t := doc[0].text;
      assert NoLoneStar(t);
      if doc[0].Strong? {
        assert NoLoneStar("**");
        NoLoneStarAppend("**", t);
        NoLoneStarAppend("**" + t, "**");
        NoLoneStarAppend("**" + t + "**", GeminiMarkdown(doc[1..]));
      } else {
        NoLoneStarAppend(t, GeminiMarkdown(doc[1..]));
      }
    }
  }

  lemma {:induction false} BoldPassOfGemini(doc: seq<Span>)
    requires SimpleDoc(doc)
    ensures BoldPass(GeminiMarkdown(doc)) == TelegramMarkdown(doc)
  {
    if doc != [] {
      var t := doc[0].text;
      assert NoDoubleStar(t);
      BoldPassOfGemini(doc[1..]);
      if doc[0].Strong? {
        BoldPassStrong(t, GeminiMarkdown(doc[1..]));
        assert GeminiMarkdown(doc) == "**" + t + "**" + GeminiMarkdown(doc[1..]);
      } else {
        BoldPassPlainPrefix(t, GeminiMarkdown(doc[1..]));
      }
    }
  }

  /** Bold and plain text from Gemini arrive as Telegram bold and plain text. */
  lemma GeminiBoldBecomesTelegramBold(doc: seq<Span>)
    requires SimpleDoc(doc)
    ensures ReplaceAsterisks(GeminiMarkdown(doc)) == TelegramMarkdown(doc)
  {
    GeminiMarkdownHasNoLoneStar(doc);
    NoLoneStarUnchanged(GeminiMarkdown(doc));
    BoldPassOfGemini(doc);
  }

  // ---------------------------------------------------------------------------------------
  // The escape substitution of `escape_markdown`. The `]` of the character list closes the
  // bracket expression after `_*[`, so the pattern is the group of two alternatives
  //   `[_*[]` `()` `~`>` `#+` `-=`     and     `{}` `.` `!]`
  // and the replacement puts a backslash before each match.

  /**
   * First alternative, matched at the start of `s`. Giving back a `#` of the greedy run cannot
   * help, since `-` would then have to match a `#`, so the longest run is the only candidate.
   */
  function EscapeFirstAlternative(s: string): (r: Option<nat>)
    ensures r.Some? ==> 7 <= r.value <= |s| && (s[0] == '_' || s[0] == '*' || s[0] == '[')
    ensures r.Some? ==> HasAt(s, 1, "~`>") && HasAt(s, r.value - 2, "-=")
    ensures r.Some? ==> forall k :: 4 <= k < r.value - 2 ==> s[k] == '#'
  {
    if |s| >= 4 && (s[0] == '_' || s[0] == '*' || s[0] == '[') && HasAt(s, 1, "~`>") then
      var n := CharRun(s[4..], '#');
      if n >= 1 && HasAt(s, 4 + n, "-=") then
        assert forall k :: 4 <= k < 4 + n ==> s[k] == s[4..][k - 4];
        Some(6 + n)
      else None
    else None
  }

  /** Second alternative: `{}`, one character other than a newline, then `!]`. */
  function EscapeSecondAlternative(s: string): (r: Option<nat>)
    ensures r.Some? <==> |s| >= 5 && s[0] == '{' && s[1] == '}' && s[2] != '\n' && s[3] == '!' && s[4] == ']'
    ensures r.Some? ==> r.value == 5
  {
    if |s| >= 5 && s[0] == '{' && s[1] == '}' && s[2] != '\n' && s[3] == '!' && s[4] == ']' then Some(5)
    else None
  }

  /** The length of the escape pattern's match at the start of `s`, if it matches there. */
  function EscapeMatchAt(s: string): (r: Option<nat>)
    ensures r.Some? ==> 5 <= r.value <= |s| && (s[0] == '_' || s[0] == '*' || s[0] == '[' || s[0] == '{')
  {
    var first := EscapeFirstAlternative(s);
    if first.Some? then first else EscapeSecondAlternative(s)
  }

  /** The escape substitution as the pattern is written. */
  function EscapeStep(s: string): string
    decreases |s|
  {
    if s == [] then []
    else match EscapeMatchAt(s)
      case Some(n) => "\\" + s[..n] + EscapeStep(s[n..])
      case None => [s[0]] + EscapeStep(s[1..])
  }

  /** Every match starts with `_`, `*`, `[` or `{`: text with none of them is left alone. */
  lemma {:induction false} EscapeStepUnchanged(s: string)
    requires Lacks(s, '_') && Lacks(s, '*') && Lacks(s, '[') && Lacks(s, '{')
    ensures EscapeStep(s) == s
    decreases |s|
  {
    if s != [] {
      EscapeStepUnchanged(s[1..]);
      assert [s[0]] + s[1..] == s;
    }
  }

  /** Every match is at least five characters long: shorter text is left alone. */
  lemma {:induction false} EscapeStepShortUnchanged(s: string)
    requires |s| < 5
    ensures EscapeStep(s) == s
    decreases |s|
  {
    if s != [] {
      EscapeStepShortUnchanged(s[1..]);
      assert [s[0]] + s[1..] == s;
    }
  }

  /** What the pattern does escape: a whole match of the first alternative gets one backslash. */
  lemma EscapeStepFirstAlternative(c: char, hashes: string, rest: string)
    requires c == '_' || c == '*' || c == '['
    requires |hashes| >= 1 && forall k :: 0 <= k < |hashes| ==> hashes[k] == '#'
    ensures EscapeStep([c] + "~`>" + hashes + "-=" + rest) == "\\" + [c] + "~`>" + hashes + "-=" + EscapeStep(rest)
  {
    var m := [c] + "~`>" + hashes + "-=";
    var s := m + rest;
    FirstAlternativeMatches(c, hashes, rest);
    EscapeStepAtMatch(s, |m|);
    assert s[..|m|] == m;
    assert s[|m|..] == rest;
  }

  /** Where a match of length `n` starts, the substitution escapes it and goes on after it. */
  lemma EscapeStepAtMatch(s: string, n: nat)
    requires s != [] && EscapeMatchAt(s) == Some(n)
    ensures n <= |s| && EscapeStep(s) == "\\" + s[..n] + EscapeStep(s[n..])
  {
  }

  lemma FirstAlternativeMatches(c: char, hashes: string, rest: string)
    requires c == '_' || c == '*' || c == '['
    requires |hashes| >= 1 && forall k :: 0 <= k < |hashes| ==> hashes[k] == '#'
    ensures EscapeMatchAt([c] + "~`>" + hashes + "-=" + rest) == Some(|hashes| + 6)
  {
    var s := [c] + "~`>" + hashes + "-=" + rest;
    var n := |hashes|;
    assert s[1..4] == "~`>";
    var t := s[4..];
    assert t == hashes + "-=" + rest;
    CharRunCounts(t, '#', n);
    assert s[4 + n..6 + n] == "-=";
  }

  lemma {:induction false} CharRunCounts(s: string, c: char, n: nat)
    requires n < |s| && s[n] != c
    requires forall k :: 0 <= k < n ==> s[k] == c
    ensures CharRun(s, c) == n
    decreases n
  {
    if n > 0 {
      CharRunCounts(s[1..], c, n - 1);
    }
  }

  // The evidently intended escape: a backslash before each of the characters listed.

  /** The eighteen characters of the escape list. */
  const SpecialChars: string := "_*[]()~`>#+-=|{}.!"

  function EscapeSpecialChars(s: string): (r: string)
    ensures |r| >= |s|
  {
    if s == [] then []
    else (if s[0] in SpecialChars then ['\\', s[0]] else [s[0]]) + EscapeSpecialChars(s[1..])
  }

  /** Drops the backslash in front of each escaped character. */
  function Unescape(t: string): string
    decreases |t|
  {
    if t == [] then []
    else if t[0] == '\\' && |t| >= 2 then [t[1]] + Unescape(t[2..])
    else [t[0]] + Unescape(t[1..])
  }

  /** Escaping loses nothing: on text without backslashes, unescaping gives the text back. */
  lemma {:induction false} UnescapeEscapeSpecialChars(s: string)
    requires Lacks(s, '\\')
    ensures Unescape(EscapeSpecialChars(s)) == s
    decreases |s|
  {
    if s != [] {
      UnescapeEscapeSpecialChars(s[1..]);
      var r := EscapeSpecialChars(s[1..]);
      if s[0] in SpecialChars {
        assert (['\\', s[0]] + r)[2..] == r;
      } else {
        assert ([s[0]] + r)[1..] == r;
      }
      assert [s[0]] + s[1..] == s;
    }
  }

  /** Text without backslashes passes through `Unescape` unchanged, whatever follows it. */
  lemma {:induction false} UnescapePlainPrefix(a: string, t: string)
    requires Lacks(a, '\\')
    ensures Unescape(a + t) == a + Unescape(t)
    decreases |a|
  {
    if a == [] {
      assert a + t == t;
    } else {
      assert (a + t)[0] == a[0];
      assert (a + t)[1..] == a[1..] + t;
      UnescapePlainPrefix(a[1..], t);
      assert [a[0]] + a[1..] == a;
    }
  }

  /** A backslash put in front of backslash-free text is dropped again. */
  lemma UnescapeEscapedMatch(m: string, e: string)
    requires m != [] && Lacks(m, '\\')
    ensures Unescape("\\" + m + e) == m + Unescape(e)
  {
    var t := "\\" + m + e;
    assert t[0] == '\\' && t[1] == m[0];
    assert t[2..] == m[1..] + e;
    UnescapePlainPrefix(m[1..], e);
    assert [m[0]] + m[1..] == m;
  }

  /**
   * The substitution as written loses nothing either: each match only gains a backslash in
   * front, so on text without backslashes unescaping gives the text back.
   */
  lemma {:induction false} UnescapeEscapeStep(s: string)
    requires Lacks(s, '\\')
    ensures Unescape(EscapeStep(s)) == s
    decreases |s|
  {
    if s != [] {
      match EscapeMatchAt(s)
      case Some(n) =>
        EscapeStepAtMatch(s, n);
        UnescapeEscapeStep(s[n..]);
        UnescapeEscapedMatch(s[..n], EscapeStep(s[n..]));
        assert s[..n] + s[n..] == s;
      case None =>
        UnescapeEscapeStep(s[1..]);
        var e := EscapeStep(s[1..]);
        assert ([s[0]] + e)[1..] == e;
        assert [s[0]] + s[1..] == s;
    }
  }

  /** Every listed character in the escaped text has a backslash right before it. */
  lemma {:induction false} SpecialCharsAreEscaped(s: string)
    ensures forall i :: 0 <= i < |EscapeSpecialChars(s)| && EscapeSpecialChars(s)[i] in SpecialChars ==>
      i > 0 && EscapeSpecialChars(s)[i - 1] == '\\'
    decreases |s|
  {
    if s != [] {
      SpecialCharsAreEscaped(s[1..]);
      var r := EscapeSpecialChars(s[1..]);
      var head := if s[0] in SpecialChars then ['\\', s[0]] else [s[0]];
      assert EscapeSpecialChars(s) == head + r;
      forall i | 0 <= i < |head + r| && (head + r)[i] in SpecialChars
        ensures i > 0 && (head + r)[i - 1] == '\\'
      {
        if i >= |head| {
          assert (head + r)[i] == r[i - |head|];
          if i > |head| {
            assert (head + r)[i - 1] == r[i - 1 - |head|];
          }
        }
      }
    }
  }

  /**
   * The pattern as written never escapes a listed character standing on its own, where the
   * intended escape always does.
   */
  lemma LoneSpecialCharNotEscaped(c: char)
    requires c in SpecialChars
    ensures EscapeStep([c]) == [c]
    ensures EscapeSpecialChars([c]) == ['\\', c]
  {
    EscapeStepShortUnchanged([c]);
  }

  // ---------------------------------------------------------------------------------------
  // The anchor substitution of `escape_markdown`: `<a.*?href=['"](.*?)['"].*?>(.*?)</a>`
  // replaced by the link text, a space and the address in parentheses. Each lazy `.*?` stops
  // at a newline; backtracking tries its shortest extension first, so each level below takes
  // the first position from which the rest of the pattern can still match.

  predicate IsQuote(c: char) {
    c == '\'' || c == '"'
  }

  /** `</a>` at index `i`. */
  predicate CloseTagAt(s: string, i: nat) {
    i + 4 <= |s| && s[i] == '<' && s[i + 1] == '/' && s[i + 2] == 'a' && s[i + 3] == '>'
  }

  /** `href=` and a quote at index `i`. */
  predicate HrefAt(s: string, i: nat) {
    && i + 6 <= |s|
    && s[i] == 'h' && s[i + 1] == 'r' && s[i + 2] == 'e' && s[i + 3] == 'f' && s[i + 4] == '='
    && IsQuote(s[i + 5])
  }

  /** `(.*?)</a>` from `j`: the first closing tag at or after `j` with no newline before it. */
  function AnchorCloseFrom(s: string, j: nat): (r: Option<nat>)
    requires j <= |s|
    ensures r.Some? ==> j <= r.value && CloseTagAt(s, r.value) && Lacks(s[j..r.value], '\n')
    ensures r.Some? ==> forall m :: j <= m < r.value ==> !CloseTagAt(s, m)
    ensures r.None? ==> forall k :: j <= k && CloseTagAt(s, k) ==> exists m :: j <= m < k && s[m] == '\n'
    decreases |s| - j
  {
    if CloseTagAt(s, j) then Some(j)
    else if j == |s| || s[j] == '\n' then None
    else AnchorCloseFrom(s, j + 1)
  }

  /** `.*?>(.*?)</a>` from `j`: the positions of the `>` and of the closing tag. */
  function AnchorGtFrom(s: string, j: nat): (r: Option<(nat, nat)>)
    requires j <= |s|
    ensures r.Some? ==> j <= r.value.0 < r.value.1 && CloseTagAt(s, r.value.1)
    ensures r.Some? ==> s[r.value.0] == '>'
    decreases |s| - j
  {
    if j == |s| then None
    else if s[j] == '>' && AnchorCloseFrom(s, j + 1).Some? then Some((j, AnchorCloseFrom(s, j + 1).value))
    else if s[j] == '\n' then None
    else AnchorGtFrom(s, j + 1)
  }

  /** `(.*?)['"].*?>(.*?)</a>` from `j`: the closing quote, the `>` and the closing tag. */
  function AnchorQuoteFrom(s: string, j: nat): (r: Option<(nat, nat, nat)>)
    requires j <= |s|
    ensures r.Some? ==> j <= r.value.0 < r.value.1 < r.value.2 && CloseTagAt(s, r.value.2)
    ensures r.Some? ==> IsQuote(s[r.value.0])
    decreases |s| - j
  {
    if j == |s| then None
    else if IsQuote(s[j]) && AnchorGtFrom(s, j + 1).Some? then
      var (g, e) := AnchorGtFrom(s, j + 1).value;
      Some((j, g, e))
    else if s[j] == '\n' then None
    else AnchorQuoteFrom(s, j + 1)
  }

  /** `.*?href=['"](.*?)['"].*?>(.*?)</a>` from `j`: where `href=` starts, then as above. */
  function AnchorHrefFrom(s: string, j: nat): (r: Option<(nat, nat, nat, nat)>)
    requires j <= |s|
    ensures r.Some? ==> j <= r.value.0 && r.value.0 + 6 <= r.value.1 < r.value.2 < r.value.3 && CloseTagAt(s, r.value.3)
    ensures r.Some? ==> HrefAt(s, r.value.0)
    decreases |s| - j
  {
    if HrefAt(s, j) && AnchorQuoteFrom(s, j + 6).Some? then
      var (q, g, e) := AnchorQuoteFrom(s, j + 6).value;
      Some((j, q, g, e))
    else if j == |s| || s[j] == '\n' then None
    else AnchorHrefFrom(s, j + 1)
  }

  /** The anchor pattern matched at the start of `s`: the address, the link text and the length. */
  function AnchorAt(s: string): (r: Option<(string, string, nat)>)
    ensures r.Some? ==> |s| >= 2 && s[0] == '<' && s[1] == 'a' && 4 <= r.value.2 <= |s| && CloseTagAt(s, r.value.2 - 4)
  {
    if |s| >= 2 && s[0] == '<' && s[1] == 'a' && AnchorHrefFrom(s, 2).Some? then
      var (h, q, g, e) := AnchorHrefFrom(s, 2).value;
      Some((s[h + 6..q], s[g + 1..e], e + 4))
    else None
  }

  function AnchorPass(s: string): string
    decreases |s|
  {
    if s == [] then []
    else match AnchorAt(s)
      case Some((href, text, n)) => text + " (" + href + ")" + AnchorPass(s[n..])
      case None => [s[0]] + AnchorPass(s[1..])
  }

  /** Text without `<` holds no anchor and is left alone. */
  lemma {:induction false} AnchorPassUnchanged(s: string)
    requires Lacks(s, '<')
    ensures AnchorPass(s) == s
    decreases |s|
  {
    if s != [] {
      AnchorPassUnchanged(s[1..]);
      assert [s[0]] + s[1..] == s;
    }
  }

  lemma {:induction false} AnchorCloseFinds(s: string, j: nat, e: nat)
    requires j <= e && CloseTagAt(s, e)
    requires forall m :: j <= m < e ==> s[m] != '<' && s[m] != '\n'
    ensures AnchorCloseFrom(s, j) == Some(e)
    decreases e - j
  {
    if j < e {
      AnchorCloseFinds(s, j + 1, e);
    }
  }

  lemma {:induction false} AnchorQuoteFinds(s: string, j: nat, q: nat)
    requires j <= q < |s| && IsQuote(s[q]) && AnchorGtFrom(s, q + 1).Some?
    requires forall m :: j <= m < q ==> !IsQuote(s[m]) && s[m] != '\n'
    ensures AnchorQuoteFrom(s, j) == Some((q, AnchorGtFrom(s, q + 1).value.0, AnchorGtFrom(s, q + 1).value.1))
    decreases q - j
  {
    if j < q {
      AnchorQuoteFinds(s, j + 1, q);
    }
  }

  lemma AnchorGtFinds(s: string, g: nat, e: nat)
    requires g < e && CloseTagAt(s, e) && s[g] == '>'
    requires forall m :: g + 1 <= m < e ==> s[m] != '<' && s[m] != '\n'
    ensures AnchorGtFrom(s, g) == Some((g, e))
  {
    AnchorCloseFinds(s, g + 1, e);
  }

  /** Where the parts of a one-line anchor sit. */
  lemma AnchorLayout(href: string, text: string, rest: string)
    requires Lacks(href, '"') && Lacks(href, '\'') && Lacks(href, '\n')
    requires Lacks(text, '<') && Lacks(text, '\n')
    ensures var s := "<a href=\"" + href + "\">" + text + "</a>" + rest;
      var q := 9 + |href|;
      && |s| >= q + |text| + 6 && s[0] == '<' && s[1] == 'a' && s[2] == ' ' && HrefAt(s, 3)
      && (forall m :: 9 <= m < q ==> !IsQuote(s[m]) && s[m] != '\n')
      && s[q] == '"' && s[q + 1] == '>'
      && (forall m :: q + 2 <= m < q + 2 + |text| ==> s[m] != '<' && s[m] != '\n')
      && CloseTagAt(s, q + 2 + |text|)
      && s[9..q] == href && s[q + 2..q + 2 + |text|] == text
  {
    var s := "<a href=\"" + href + "\">" + text + "</a>" + rest;
    var q := 9 + |href|;
    forall m | q + 2 <= m < q + 2 + |text|
      ensures s[m] != '<' && s[m] != '\n'
    {
      assert s[m] == text[m - q - 2];
    }
    forall m | 9 <= m < q
      ensures !IsQuote(s[m]) && s[m] != '\n'
    {
      assert s[m] == href[m - 9];
    }
    assert s[9..q] == href;
    assert s[q + 2..q + 2 + |text|] == text;
  }

  /** The anchor pattern matches a well-formed one-line anchor as a whole. */
  lemma AnchorMatchesTag(href: string, text: string, rest: string)
    requires Lacks(href, '"') && Lacks(href, '\'') && Lacks(href, '\n')
    requires Lacks(text, '<') && Lacks(text, '\n')
    ensures AnchorAt("<a href=\"" + href + "\">" + text + "</a>" + rest) == Some((href, text, |href| + |text| + 15))
  {
    var s := "<a href=\"" + href + "\">" + text + "</a>" + rest;
    AnchorLayout(href, text, rest);
    var q := 9 + |href|;
    var g := q + 1;
    var e := g + 1 + |text|;
    AnchorGtFinds(s, g, e);
    AnchorQuoteFinds(s, 9, q);
    assert AnchorHrefFrom(s, 3) == Some((3, q, g, e));
    assert AnchorHrefFrom(s, 2) == Some((3, q, g, e));
  }

  /** A well-formed one-line anchor becomes its text followed by its address in parentheses. */
  lemma AnchorRewritten(href: string, text: string, rest: string)
    requires Lacks(href, '"') && Lacks(href, '\'') && Lacks(href, '\n')
    requires Lacks(text, '<') && Lacks(text, '\n')
    ensures AnchorPass("<a href=\"" + href + "\">" + text + "</a>" + rest) == text + " (" + href + ")" + AnchorPass(rest)
  {
    var s := "<a href=\"" + href + "\">" + text + "</a>" + rest;
    AnchorMatchesTag(href, text, rest);
    assert s[|href| + |text| + 15..] == rest;
  }

  // ---------------------------------------------------------------------------------------

  /** `escape_markdown`: the asterisk passes, the escape substitution, then the anchor rewrite. */
  function EscapeMarkdown(s: string): string {
    AnchorPass(EscapeStep(ReplaceAsterisks(s)))
  }

  /** A listed character on its own other than `*`, such as `_`, `.`, `(` or `!`, is sent as it is. */
  lemma EscapeMarkdownLoneChar(c: char)
    requires c != '*'
    ensures EscapeMarkdown([c]) == [c]
  {
    ReplaceAsterisksStarFree([c]);
    EscapeStepShortUnchanged([c]);
    assert AnchorAt([c]).None?;
    assert [c][1..] == [];
    assert AnchorPass([c]) == [c] + AnchorPass([]);
  }

  /** Text free of `*`, `_`, `[`, `{` and `<` comes out of `escape_markdown` unchanged. */
  lemma EscapeMarkdownPlain(s: string)
    requires Lacks(s, '*') && Lacks(s, '_') && Lacks(s, '[') && Lacks(s, '{') && Lacks(s, '<')
    ensures EscapeMarkdown(s) == s
  {
    ReplaceAsterisksStarFree(s);
    EscapeStepUnchanged(s);
    AnchorPassUnchanged(s);
  }

  /** `escape_markdown` with the escape applied to every listed character, as intended. */
  function EscapeMarkdownIntended(s: string): string {
    AnchorPass(EscapeSpecialChars(ReplaceAsterisks(s)))
  }

  /** With the intended escape, a listed character on its own other than `*` is escaped. */
  lemma EscapeMarkdownIntendedLoneChar(c: char)
    requires c in SpecialChars && c != '*'
    ensures EscapeMarkdownIntended([c]) == ['\\', c]
  {
    ReplaceAsterisksStarFree([c]);
    assert [c][1..] == [];
    assert EscapeSpecialChars([c]) == ['\\', c];
    assert '<' !in SpecialChars;
    AnchorPassUnchanged(['\\', c]);
  }
}

