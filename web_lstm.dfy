/**
 * The web prototype's LSTM stage: `clean_text` and the label rule of `predict`. Tokenising,
 * padding and the network itself are TensorFlow and stay abstract.
 */
module WebLstm {
  import opened Wrappers
  import opened PyText

  predicate IsAsciiLetterOrDigit(c: char) {
    'A' <= c <= 'Z' || 'a' <= c <= 'z' || '0' <= c <= '9'
  }

  /** The characters `clean_text` can produce: `[a-z0-9 ]`. */
  predicate IsCleanChar(c: char) {
    'a' <= c <= 'z' || '0' <= c <= '9' || c == ' '
  }

  /** The non-whitespace characters of `s`, in order. */
  function NonWhitespace(s: string): string {
    if s == [] then [] else (if IsSpace(s[0]) then [] else [s[0]]) + NonWhitespace(s[1..])
  }

  /** Drops the leading whitespace of `s`. */
  function SkipSpaces(s: string): (r: string)
    ensures |r| <= |s|
    ensures forall k :: 0 <= k < |s| - |r| ==> IsSpace(s[k])
    ensures r == [] || !IsSpace(r[0])
  {
    if s != [] && IsSpace(s[0]) then SkipSpaces(s[1..]) else s
  }

  /**
   * First pass, `re.sub(r'\s+', ' ', text)`: each maximal run of whitespace becomes one space.
   * So the only whitespace left is single spaces, one exactly where a run started, and the other
   * characters are kept in order.
   */
  function CollapseWhitespace(s: string): (r: string)
    ensures |r| <= |s|
    ensures r == [] <==> s == []
    ensures r != [] ==> (r[0] == ' ' <==> IsSpace(s[0]))
    ensures forall k :: 0 <= k < |r| && IsSpace(r[k]) ==> r[k] == ' '
    ensures forall k :: 0 <= k < |r| - 1 ==> !(r[k] == ' ' && r[k + 1] == ' ')
    decreases |s|
  {
    if s == [] then []
    else if IsSpace(s[0]) then " " + CollapseWhitespace(SkipSpaces(s[1..]))
    else [s[0]] + CollapseWhitespace(s[1..])
  }

  /** What `SkipSpaces` leaves is the suffix of `s` from its first character other than whitespace. */
  lemma {:induction false} SkipSpacesIsSuffix(s: string)
    ensures SkipSpaces(s) == s[|s| - |SkipSpaces(s)|..]
  {
    if s != [] && IsSpace(s[0]) {
      SkipSpacesIsSuffix(s[1..]);
    }
  }

  lemma {:induction false} SkipKeepsNonWhitespace(s: string)
    ensures NonWhitespace(SkipSpaces(s)) == NonWhitespace(s)
  {
    if s != [] && IsSpace(s[0]) {
      SkipKeepsNonWhitespace(s[1..]);
    }
  }

  /** The first pass keeps every character other than whitespace, in order. */
  lemma {:induction false} CollapseKeepsNonWhitespace(s: string)
    ensures NonWhitespace(CollapseWhitespace(s)) == NonWhitespace(s)
    decreases |s|
  {
    if s != [] {
      if IsSpace(s[0]) {
        var rest := SkipSpaces(s[1..]);
        CollapseKeepsNonWhitespace(rest);
        SkipKeepsNonWhitespace(s[1..]);
        var c := CollapseWhitespace(rest);
        assert (" " + c)[1..] == c;
      } else {
        CollapseKeepsNonWhitespace(s[1..]);
        var c := CollapseWhitespace(s[1..]);
        assert ([s[0]] + c)[1..] == c;
      }
    }
  }

  /** `SkipSpaces` consumes a whole run of whitespace and stops at the first other character. */
  lemma {:induction false} SkipSpacesRun(w: string, b: string)
    requires forall k :: 0 <= k < |w| ==> IsSpace(w[k])
    requires b == [] || !IsSpace(b[0])
    ensures SkipSpaces(w + b) == b
  {
    if w == [] {
      assert w + b == b;
    } else {
      assert (w + b)[0] == w[0];
      assert (w + b)[1..] == w[1..] + b;
      SkipSpacesRun(w[1..], b);
    }
  }

  /** Characters other than whitespace are copied by the first pass as they stand. */
  lemma {:induction false} CollapseNoSpacePrefix(a: string, b: string)
    requires forall k :: 0 <= k < |a| ==> !IsSpace(a[k])
    ensures CollapseWhitespace(a + b) == a + CollapseWhitespace(b)
  {
    if a == [] {
      assert a + b == b;
    } else {
      assert (a + b)[0] == a[0];
      assert (a + b)[1..] == a[1..] + b;
      CollapseNoSpacePrefix(a[1..], b);
      assert a == [a[0]] + a[1..];
    }
  }

  /** A maximal run of whitespace, however long and of whatever characters, becomes one space. */
  lemma CollapseRun(w: string, b: string)
    requires w != [] && forall k :: 0 <= k < |w| ==> IsSpace(w[k])
    requires b == [] || !IsSpace(b[0])
    ensures CollapseWhitespace(w + b) == " " + CollapseWhitespace(b)
  {
    assert (w + b)[0] == w[0];
    assert (w + b)[1..] == w[1..] + b;
    SkipSpacesRun(w[1..], b);
  }

  /**
   * Second pass, `re.sub(r'[^A-Za-z0-9 ]+', '', text)`: deleting every run of such characters
   * is deleting each of them. Every letter, digit and space of the input survives, as often as
   * it occurs, and nothing else does.
   */
  function StripSpecial(s: string): (r: string)
    ensures |r| <= |s|
    ensures forall k :: 0 <= k < |r| ==> IsAsciiLetterOrDigit(r[k]) || r[k] == ' '
  {
    if s == [] then []
    else (if IsAsciiLetterOrDigit(s[0]) || s[0] == ' ' then [s[0]] else []) + StripSpecial(s[1..])
  }

  /** Every letter, digit and space survives the second pass as often as it occurs, and nothing else. */
  lemma {:induction false} StripSpecialCounts(s: string, c: char)
    ensures multiset(StripSpecial(s))[c] == (if IsAsciiLetterOrDigit(c) || c == ' ' then multiset(s)[c] else 0)
  {
    if s != [] {
      StripSpecialCounts(s[1..], c);
      assert s == [s[0]] + s[1..];
    }
  }

  /** The deletions act on each part of the text separately, so the kept characters stay in order. */
  lemma {:induction false} StripSpecialAppend(a: string, b: string)
    ensures StripSpecial(a + b) == StripSpecial(a) + StripSpecial(b)
  {
    if a != [] {
      assert (a + b)[1..] == a[1..] + b;
      StripSpecialAppend(a[1..], b);
    } else {
      assert a + b == b;
    }
  }

  /** `str.lower()` on one ASCII character. */
  function LowerChar(c: char): char {
    if 'A' <= c <= 'Z' then (c as int + 32) as char else c
  }

  /** Third pass, `text.lower()`; after the second pass only ASCII is left, where it is this map. */
  function LowerAscii(s: string): (r: string)
    ensures |r| == |s|
    ensures forall k :: 0 <= k < |s| ==> r[k] == LowerChar(s[k])
  {
    if s == [] then [] else [LowerChar(s[0])] + LowerAscii(s[1..])
  }

  /** `clean_text`: the three passes in order. The result is lower-case ASCII and never longer. */
  function CleanText(text: string): (r: string)
    ensures |r| <= |text|
    ensures forall k :: 0 <= k < |r| ==> IsCleanChar(r[k])
  {
    LowerAscii(StripSpecial(CollapseWhitespace(text)))
  }

  /** The letters and digits of `s`, in order. */
  function KeepLettersAndDigits(s: string): string {
    if s == [] then []
    else (if IsAsciiLetterOrDigit(s[0]) then [s[0]] else []) + KeepLettersAndDigits(s[1..])
  }

  /** `s` without its space characters. */
  function RemoveBlanks(s: string): string {
    if s == [] then [] else (if s[0] == ' ' then [] else [s[0]]) + RemoveBlanks(s[1..])
  }

  /** Text already in `clean_text`'s output form, with no two spaces in a row, is a fixed point. */
  lemma {:induction false} CleanTextFixedPoint(s: string)
    requires forall k :: 0 <= k < |s| ==> IsCleanChar(s[k])
    requires forall k :: 0 <= k < |s| - 1 ==> !(s[k] == ' ' && s[k + 1] == ' ')
    ensures CleanText(s) == s
  {
    CollapseKeepsSingleSpaces(s);
    StripKeepsClean(s);
    LowerKeepsClean(s);
  }

  lemma {:induction false} CollapseKeepsSingleSpaces(s: string)
    requires forall k :: 0 <= k < |s| ==> IsCleanChar(s[k])
    requires forall k :: 0 <= k < |s| - 1 ==> !(s[k] == ' ' && s[k + 1] == ' ')
    ensures CollapseWhitespace(s) == s
    decreases |s|
  {
    if s != [] {
      CollapseKeepsSingleSpaces(s[1..]);
      if IsSpace(s[0]) {
        assert SkipSpaces(s[1..]) == s[1..];
      }
    }
  }

  lemma {:induction false} StripKeepsClean(s: string)
    requires forall k :: 0 <= k < |s| ==> IsCleanChar(s[k])
    ensures StripSpecial(s) == s
  {
    if s != [] {
      StripKeepsClean(s[1..]);
    }
  }

  lemma {:induction false} LowerKeepsClean(s: string)
    requires forall k :: 0 <= k < |s| ==> IsCleanChar(s[k])
    ensures LowerAscii(s) == s
  {
  }

  /**
   * Removing the spaces from `clean_text(s)` leaves exactly the ASCII letters and digits of `s`,
   * in their order, lower-cased: the passes only turn whitespace into spaces and delete.
   */
  lemma CleanTextKeepsLettersAndDigits(s: string)
    ensures RemoveBlanks(CleanText(s)) == LowerAscii(KeepLettersAndDigits(s))
  {
    var t := StripSpecial(CollapseWhitespace(s));
    RemoveBlanksOfLower(t);
    RemoveBlanksOfStrip(CollapseWhitespace(s));
    CollapseKeepsLettersAndDigits(s);
  }

  lemma {:induction false} SkipKeepsLettersAndDigits(s: string)
    ensures KeepLettersAndDigits(SkipSpaces(s)) == KeepLettersAndDigits(s)
  {
    if s != [] && IsSpace(s[0]) {
      SkipKeepsLettersAndDigits(s[1..]);
    }
  }

  lemma {:induction false} CollapseKeepsLettersAndDigits(s: string)
    ensures KeepLettersAndDigits(CollapseWhitespace(s)) == KeepLettersAndDigits(s)
    decreases |s|
  {
    if s != [] {
      if IsSpace(s[0]) {
        var rest := SkipSpaces(s[1..]);
        CollapseKeepsLettersAndDigits(rest);
        SkipKeepsLettersAndDigits(s[1..]);
        var c := CollapseWhitespace(rest);
        assert (" " + c)[1..] == c;
      } else {
        CollapseKeepsLettersAndDigits(s[1..]);
        var c := CollapseWhitespace(s[1..]);
        assert ([s[0]] + c)[1..] == c;
      }
    }
  }

  lemma {:induction false} RemoveBlanksOfStrip(s: string)
    ensures RemoveBlanks(StripSpecial(s)) == KeepLettersAndDigits(s)
  {
    if s != [] {
      RemoveBlanksOfStrip(s[1..]);
      var rest := StripSpecial(s[1..]);
      if IsAsciiLetterOrDigit(s[0]) || s[0] == ' ' {
        assert ([s[0]] + rest)[1..] == rest;
      } else {
        assert [] + rest == rest;
      }
    }
  }

  lemma {:induction false} RemoveBlanksOfLower(s: string)
    ensures RemoveBlanks(LowerAscii(s)) == LowerAscii(RemoveBlanks(s))
  {
    if s != [] {
      RemoveBlanksOfLower(s[1..]);
      var rest := RemoveBlanks(s[1..]);
      assert ([LowerChar(s[0])] + LowerAscii(s[1..]))[1..] == LowerAscii(s[1..]);
      if s[0] != ' ' {
        assert ([s[0]] + rest)[1..] == rest;
      }
    }
  }

  /**
   * `clean_text` is not idempotent: the space run is collapsed before the `!` between the two
   * spaces is deleted, so a second application changes the result again.
   */
  /** One step of the second pass. */
  lemma StripStep(s: string)
    requires s != []
    ensures StripSpecial(s) == (if IsAsciiLetterOrDigit(s[0]) || s[0] == ' ' then [s[0]] else []) + StripSpecial(s[1..])
  {
  }

  lemma CleanTextNotIdempotent(s: string)
    requires s == "a ! b"
    ensures CleanText(s) == "a  b"
    ensures CleanText(CleanText(s)) == "a b"
  {
    var t, u := "a  b", "a b";
    CollapseBangBetweenSpaces(s);
    StripBangBetweenSpaces(s, t);
    LowerKeepsClean(t);
    CleanTextOfPasses(s, s, t);
    CollapseDoubleSpace(t, u);
    StripKeepsClean(u);
    LowerKeepsClean(u);
    CleanTextOfPasses(t, u, u);
  }

  lemma CleanTextOfPasses(s: string, c: string, t: string)
    requires CollapseWhitespace(s) == c && StripSpecial(c) == t && LowerAscii(t) == t
    ensures CleanText(s) == t
  {
  }

  lemma CollapseBangBetweenSpaces(s: string)
    requires s == "a ! b"
    ensures CollapseWhitespace(s) == s
  {
    var b := s[4..];
    assert b == "b" && SkipSpaces(b) == b && CollapseWhitespace(b) == b;
    assert CollapseWhitespace(s[3..]) == s[3..];
    assert SkipSpaces(s[2..]) == s[2..];
    assert CollapseWhitespace(s[2..]) == s[2..];
    assert CollapseWhitespace(s[1..]) == s[1..];
  }

  lemma StripBangBetweenSpaces(s: string, t: string)
    requires s == "a ! b" && t == "a  b"
    ensures StripSpecial(s) == t
  {
    StripStep(s[4..]);
    StripStep(s[3..]);
    StripStep(s[2..]);
    StripStep(s[1..]);
    StripStep(s);
  }

  lemma CollapseDoubleSpace(t: string, u: string)
    requires t == "a  b" && u == "a b"
    ensures CollapseWhitespace(t) == u
  {
    var b := t[3..];
    assert t[2..] == " b" && b == "b";
    assert SkipSpaces(b) == b;
    assert SkipSpaces(t[2..]) == b;
    assert CollapseWhitespace(b) == b;
    assert CollapseWhitespace(t[1..]) == " b";
  }

  /** The result shown when the model or the tokenizer failed to load at start-up. */
  const NotLoadedMessage: string := "LSTM model or tokenizer not loaded."

  /**
   * The artifacts loaded at start-up: whether `lstm_model` and `tokenizer` loaded, and the score
   * the network gives a cleaned text (`texts_to_sequences`, `pad_sequences` to 500 and
   * `predict`, all TensorFlow). An exception raised there is a `Failure`.
   */
  datatype Lstm = Lstm(modelLoaded: bool, tokenizerLoaded: bool, score: string -> Result<real, string>)

  /** The LSTM part of `predict`: the label for the extracted content, or the not-loaded text. */
  function LstmLabel(lstm: Lstm, content: string): (r: Result<string, string>)
    ensures !(lstm.modelLoaded && lstm.tokenizerLoaded) ==> r == Success(NotLoadedMessage)
    ensures lstm.modelLoaded && lstm.tokenizerLoaded ==>
      match lstm.score(CleanText(content))
      case Failure(e) => r == Failure(e)
      case Success(p) => r == Success(if p > 0.5 then "Real" else "Fake")
  {
    if lstm.modelLoaded && lstm.tokenizerLoaded then
      match lstm.score(CleanText(content))
      case Failure(e) => Failure(e)
      case Success(p) => Success(if p > 0.5 then "Real" else "Fake")
    else
      Success(NotLoadedMessage)
  }

  /**
   * The label rule: with both artifacts loaded, "Real" exactly when the score is above 0.5 and
   * "Fake" exactly when it is not; the boundary 0.5 itself is "Fake".
   */
  lemma LabelThreshold(lstm: Lstm, content: string, p: real)
    requires lstm.modelLoaded && lstm.tokenizerLoaded
    requires lstm.score(CleanText(content)) == Success(p)
    ensures LstmLabel(lstm, content) == Success("Real") <==> p > 0.5
    ensures LstmLabel(lstm, content) == Success("Fake") <==> p <= 0.5
  {
  }

  /** Scores 0.5 and 0.5000001 fall on either side of the threshold. */
  lemma LabelBoundary(lstm: Lstm, content: string)
    requires lstm.modelLoaded && lstm.tokenizerLoaded
    ensures lstm.score(CleanText(content)) == Success(0.5) ==> LstmLabel(lstm, content) == Success("Fake")
    ensures lstm.score(CleanText(content)) == Success(0.5000001) ==> LstmLabel(lstm, content) == Success("Real")
  {
  }

  /**
   * Without both artifacts no prediction is made: the result does not depend on the network at
   * all, and is the not-loaded text for every request.
   */
  lemma NotLoadedIgnoresNetwork(lstm: Lstm, other: string -> Result<real, string>, a: string, b: string)
    requires !(lstm.modelLoaded && lstm.tokenizerLoaded)
    ensures LstmLabel(lstm, a) == LstmLabel(lstm.(score := other), b) == Success(NotLoadedMessage)
  {
  }

  /** The label depends on the content only through `clean_text`. */
  lemma LabelDependsOnCleanText(lstm: Lstm, a: string, b: string)
    requires CleanText(a) == CleanText(b)
    ensures LstmLabel(lstm, a) == LstmLabel(lstm, b)
  {
  }
}
