/**
 * The instruction sent with the image: the user's prompt with surrounding
 * whitespace stripped, or a fixed Vietnamese extraction instruction when
 * nothing is left.
 */
module Prompt {

  /** "Extract each piece of information on this invoice as: 'Key': Value". */
  const DefaultInstruction: string := "Hãy trích xuất " + "từng thông tin trên hóa đơn này dưới dạng: 'Key': Value"

  /** The code points Python's str.isspace accepts, which str.strip() removes. */
  predicate IsWhitespace(c: char) {
    var n := c as int;
    (0x09 <= n <= 0x0D) || (0x1C <= n <= 0x20) || n == 0x85 || n == 0xA0 || n == 0x1680
    || (0x2000 <= n <= 0x200A) || n == 0x2028 || n == 0x2029 || n == 0x202F || n == 0x205F
    || n == 0x3000
  }

  predicate AllWhitespace(s: string) {
    forall i :: 0 <= i < |s| ==> IsWhitespace(s[i])
  }

  /** Neither end is whitespace (trivially so for the empty text). */
  predicate Trimmed(s: string) {
    s == [] || (!IsWhitespace(s[0]) && !IsWhitespace(s[|s| - 1]))
  }

  /** s without its leading whitespace: a suffix of s, all of whose dropped characters are whitespace. */
  function TrimStart(s: string): (r: string)
    ensures |r| <= |s| && r == s[|s| - |r|..]
    ensures r == [] || !IsWhitespace(r[0])
    ensures AllWhitespace(s[..|s| - |r|])
    decreases |s|
  {
    if s == [] || !IsWhitespace(s[0]) then s
    else
      var r := TrimStart(s[1..]);
      assert s[..|s| - |r|] == [s[0]] + s[1..][..|s| - 1 - |r|];
      r
  }

  /** s without its trailing whitespace: a prefix of s, all of whose dropped characters are whitespace. */
  function TrimEnd(s: string): (r: string)
    ensures |r| <= |s| && r == s[..|r|]
    ensures r == [] || !IsWhitespace(r[|r| - 1])
    ensures AllWhitespace(s[|r|..])
    decreases |s|
  {
    if s == [] || !IsWhitespace(s[|s| - 1]) then s
    else
      var r := TrimEnd(s[..|s| - 1]);
      assert s[|r|..] == s[..|s| - 1][|r|..] + [s[|s| - 1]];
      r
  }

  /** str.strip() with no argument. */
  function Strip(s: string): (r: string)
    ensures Trimmed(r)
    ensures r == [] <==> AllWhitespace(s)
  {
    var t := TrimStart(s);
    var r := TrimEnd(t);
    assert r != [] ==> r[0] == t[0];
    assert AllWhitespace(s) ==> t == [] by {
      if t != [] {
        assert t[0] == s[|s| - |t|];
      }
    }
    assert r == [] ==> AllWhitespace(s) by {
      if r == [] {
        forall i | 0 <= i < |s| ensures IsWhitespace(s[i]) {
          assert s[i] == s[..|s| - |t|][i];
        }
      }
    }
    r
  }

  /** Leading whitespace in front of a text that starts with non-whitespace is exactly what TrimStart drops. */
  lemma {:induction false} TrimStartSkips(before: string, rest: string)
    requires AllWhitespace(before) && rest != [] && !IsWhitespace(rest[0])
    ensures TrimStart(before + rest) == rest
    decreases |before|
  {
    if before == [] {
      assert before + rest == rest;
    } else {
      var s := before + rest;
      assert s[0] == before[0];
      assert s[1..] == before[1..] + rest;
      TrimStartSkips(before[1..], rest);
    }
  }

  /** Trailing whitespace behind a text that ends with non-whitespace is exactly what TrimEnd drops. */
  lemma {:induction false} TrimEndSkips(middle: string, after: string)
    requires AllWhitespace(after) && middle != [] && !IsWhitespace(middle[|middle| - 1])
    ensures TrimEnd(middle + after) == middle
    decreases |after|
  {
    if after == [] {
      assert middle + after == middle;
    } else {
      var s := middle + after;
      var shorter := after[..|after| - 1];
      assert s[|s| - 1] == after[|after| - 1];
      assert s[..|s| - 1] == middle + shorter;
      TrimEndSkips(middle, shorter);
    }
  }

  /**
   * Strip is determined by its specification: whatever whitespace surrounds
   * a trimmed text, stripping gives back exactly that text.
   */
  lemma StripUnique(before: string, middle: string, after: string)
    requires AllWhitespace(before) && AllWhitespace(after) && Trimmed(middle)
    ensures Strip(before + middle + after) == middle
  {
    var s := before + middle + after;
    if middle == [] {
      assert s == before + after;
      forall i | 0 <= i < |s| ensures IsWhitespace(s[i]) {
        if i < |before| { assert s[i] == before[i]; } else { assert s[i] == after[i - |before|]; }
      }
    } else {
      assert s == before + (middle + after);
      assert (middle + after)[0] == middle[0];
      TrimStartSkips(before, middle + after);
      TrimEndSkips(middle, after);
    }
  }

  lemma SplitAtSuffix(s: string, t: string)
    requires |t| <= |s| && t == s[|s| - |t|..]
    ensures s == s[..|s| - |t|] + t
  {
  }

  lemma SplitAtPrefix(t: string, r: string)
    requires |r| <= |t| && r == t[..|r|]
    ensures t == r + t[|r|..]
  {
  }

  /** Every text is whitespace, then its stripped text, then whitespace. */
  lemma StripDecomposes(s: string) returns (before: string, after: string)
    ensures AllWhitespace(before) && AllWhitespace(after)
    ensures s == before + Strip(s) + after
  {
    var t := TrimStart(s);
    var r := TrimEnd(t);
    before := s[..|s| - |t|];
    after := t[|r|..];
    SplitAtSuffix(s, t);
    SplitAtPrefix(t, r);
    assert s == before + (r + after);
  }

  /** Stripping twice is stripping once. */
  lemma StripIdempotent(s: string)
    ensures Strip(Strip(s)) == Strip(s)
  {
    assert [] + Strip(s) + [] == Strip(s);
    StripUnique([], Strip(s), []);
  }

  lemma DefaultInstructionTrimmed()
    ensures DefaultInstruction != [] && Trimmed(DefaultInstruction)
  {
    assert DefaultInstruction[0] == "Hãy trích xuất "[0] == 'H';
    assert DefaultInstruction[|DefaultInstruction| - 1] == 'e';
  }

  /** `user_prompt.strip() or DEFAULT`: never empty, never padded with whitespace. */
  function PromptText(userPrompt: string): (text: string)
    ensures text != [] && Trimmed(text)
    ensures !AllWhitespace(userPrompt) ==> text == Strip(userPrompt)
    ensures AllWhitespace(userPrompt) ==> text == DefaultInstruction
  {
    var stripped := Strip(userPrompt);
    DefaultInstructionTrimmed();
    if stripped != [] then stripped else DefaultInstruction
  }

  /** A prompt that is already trimmed and not empty is passed on unchanged. */
  lemma PromptTextKeepsTrimmed(userPrompt: string)
    requires userPrompt != [] && Trimmed(userPrompt)
    ensures PromptText(userPrompt) == userPrompt
  {
    assert [] + userPrompt + [] == userPrompt;
    StripUnique([], userPrompt, []);
  }
}
