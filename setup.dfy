/**
 * The string rules of the `setup` command: the substring test it uses, the
 * rewrite of an existing `.gitignore`, and the answer accepted by the
 * overwrite confirmation.
 */
module Setup {
  import opened Wrappers
  import opened GoStrings

  /** `containsMiddle`: tries every start position from 0 to `|s| - |sub|` in turn. */
  method ContainsMiddle(s: string, sub: string) returns (found: bool)
    ensures found <==> Occurs(s, sub)
  {
    var i := 0;
    while i <= |s| - |sub|
      invariant 0 <= i
      invariant |sub| <= |s| ==> i <= |s| - |sub| + 1
      invariant forall j :: 0 <= j < i ==> !OccursAt(s, sub, j)
      decreases |s| - |sub| + 1 - i
    {
      if s[i..i + |sub|] == sub {
        assert OccursAt(s, sub, i);
        return true;
      }
      i := i + 1;
    }
    return false;
  }

  /** `contains`: whether `sub` occurs in `s`, checking equality, prefix and suffix before the scan. */
  method Contains(s: string, sub: string) returns (found: bool)
    ensures found <==> Occurs(s, sub)
    ensures sub == "" ==> found
    ensures |sub| > |s| ==> !found
  {
    OccursEmpty(s);
    if |s| < |sub| {
      return false;
    }
    if s == sub {
      assert OccursAt(s, sub, 0);
      return true;
    }
    if |s| == |sub| {
      assert forall j :: OccursAt(s, sub, j) ==> j == 0;
      return false;
    }
    if s[..|sub|] == sub {
      assert OccursAt(s, sub, 0);
      return true;
    }
    if s[|s| - |sub|..] == sub {
      assert OccursAt(s, sub, |s| - |sub|);
      return true;
    }
    found := ContainsMiddle(s, sub);
  }

  /** The content with a newline appended unless it already ends in one. */
  function WithNewline(content: string): (r: string)
  {
    if content == "" || content[|content| - 1] != '\n' then content + "\n" else content
  }

  /** The shortest extension of the content that ends in a newline. */
  lemma WithNewlineShape(content: string)
    ensures content <= WithNewline(content)
    ensures |WithNewline(content)| > 0 && WithNewline(content)[|WithNewline(content)| - 1] == '\n'
    ensures |WithNewline(content)| <= |content| + 1
    ensures WithNewline(content) == content <==> |content| > 0 && content[|content| - 1] == '\n'
  {
  }

  /** Appending a newline neither creates nor removes an occurrence of ".deck". */
  lemma NewlineKeepsMarker(content: string)
    ensures Occurs(WithNewline(content), ".deck") <==> Occurs(content, ".deck")
  {
    var w := WithNewline(content);
    if Occurs(content, ".deck") {
      OccursInfix("", content, w[|content|..], ".deck");
      assert "" + content + w[|content|..] == w;
    }
    if Occurs(w, ".deck") && w != content {
      var i :| OccursAt(w, ".deck", i);
      // the match ends in 'k', so it cannot reach the appended newline
      assert w[i + 4] == w[i..i + 5][4] == 'k';
      assert w[|content|] == '\n';
      assert w[i..i + 5] == content[i..i + 5];
      assert OccursAt(content, ".deck", i);
    }
  }

  /**
   * The `.gitignore` rule of `setup`: `None` when the file is left alone (it
   * already mentions ".deck" anywhere), otherwise the content written back.
   */
  ghost function GitignoreRule(content: string): (write: Option<string>)
  {
    var working := WithNewline(content);
    if Occurs(working, ".deck") then None else Some(working + ".deck/\n")
  }

  /** The rewrite of an existing `.gitignore`, given its content. */
  method UpdateGitignore(content: string) returns (write: Option<string>)
    ensures write == GitignoreRule(content)
  {
    var gitignoreContent := content;
    if gitignoreContent == "" || gitignoreContent[|gitignoreContent| - 1] != '\n' {
      gitignoreContent := gitignoreContent + "\n";
    }
    var mentioned := Contains(gitignoreContent, ".deck");
    if !mentioned {
      gitignoreContent := gitignoreContent + ".deck/\n";
      return Some(gitignoreContent);
    }
    return None;
  }

  /**
   * Without ".deck" the written content is the original, a newline if it did
   * not end in one, and ".deck/"; with ".deck" anywhere nothing is written.
   */
  lemma GitignoreOutcome(content: string)
    ensures !Occurs(content, ".deck") ==> GitignoreRule(content) == Some(WithNewline(content) + ".deck/\n")
    ensures !Occurs(content, ".deck") ==> content <= GitignoreRule(content).value
    ensures Occurs(content, ".deck") ==> GitignoreRule(content) == None
  {
    NewlineKeepsMarker(content);
    WithNewlineShape(content);
  }

  /** Applying the rule to the content it wrote leaves the file alone. */
  lemma GitignoreIdempotent(content: string)
    requires GitignoreRule(content).Some?
    ensures GitignoreRule(GitignoreRule(content).value) == None
  {
    var w := WithNewline(content);
    var out := w + ".deck/\n";
    assert out[|w|..|w| + 5] == ".deck";
    assert OccursAt(out, ".deck", |w|);
    NewlineKeepsMarker(out);
  }

  // ---------------------------------------------------------------- confirmation

  /** `unicode.IsSpace`. */
  predicate IsSpace(c: char)
  {
    var n := c as int;
    || 0x09 <= n <= 0x0D || n == 0x20 || n == 0x85 || n == 0xA0 || n == 0x1680
    || 0x2000 <= n <= 0x200A || n == 0x2028 || n == 0x2029 || n == 0x202F || n == 0x205F || n == 0x3000
  }

  /** The text without its leading white space. */
  function TrimLeft(s: string): (r: string)
    ensures |r| <= |s| && r == s[|s| - |r|..]
    ensures |r| == 0 || !IsSpace(r[0])
    ensures forall k :: 0 <= k < |s| - |r| ==> IsSpace(s[k])
  {
    if |s| > 0 && IsSpace(s[0]) then TrimLeft(s[1..]) else s
  }

  /** The text without its trailing white space. */
  function TrimRight(s: string): (r: string)
    ensures r <= s
    ensures |r| == 0 || !IsSpace(r[|r| - 1])
    ensures forall k :: |r| <= k < |s| ==> IsSpace(s[k])
  {
    if |s| > 0 && IsSpace(s[|s| - 1]) then TrimRight(s[..|s| - 1]) else s
  }

  /**
   * What cutting the leading white space of `s`, leaving `left`, and then the
   * trailing white space of `left`, leaving `r`, gives: `r` sits in `s` right
   * after the leading run, everything outside it is white space, and it
   * neither starts nor ends with white space.
   */
  lemma TrimFacts(s: string, left: string, r: string)
    requires |left| <= |s| && left == s[|s| - |left|..]
    requires |left| == 0 || !IsSpace(left[0])
    requires forall k :: 0 <= k < |s| - |left| ==> IsSpace(s[k])
    requires r <= left
    requires |r| == 0 || !IsSpace(r[|r| - 1])
    requires forall k :: |r| <= k < |left| ==> IsSpace(left[k])
    ensures |r| <= |s|
    ensures |r| == 0 || (!IsSpace(r[0]) && !IsSpace(r[|r| - 1]))
    ensures |r| == 0 ==> forall k :: 0 <= k < |s| ==> IsSpace(s[k])
    ensures |r| > 0 ==> |left| > 0 && !IsSpace(s[|s| - |left|])
    ensures |s| - |left| + |r| <= |s|
    ensures forall k :: 0 <= k < |r| ==> r[k] == s[|s| - |left| + k]
    ensures forall k :: |s| - |left| + |r| <= k < |s| ==> IsSpace(s[k])
    ensures InfixAt(s, r, |s| - |left|)
  {
    var a := |s| - |left|;
    forall k | 0 <= k < |r|
      ensures r[k] == s[a + k]
    {
      assert r[k] == left[k];
    }
    forall k | a + |r| <= k < |s|
      ensures IsSpace(s[k])
    {
      assert s[k] == left[k - a];
    }
    if |r| > 0 {
      assert r[0] == left[0] == s[a];
    }
  }

  /** `strings.TrimSpace`. */
  function TrimSpace(s: string): (r: string)
    ensures |r| <= |s|
    ensures |r| == 0 || (!IsSpace(r[0]) && !IsSpace(r[|r| - 1]))
    ensures |r| == 0 ==> forall k :: 0 <= k < |s| ==> IsSpace(s[k])
    ensures |r| > 0 ==> |TrimLeft(s)| > 0 && !IsSpace(s[|s| - |TrimLeft(s)|])
  {
    TrimRight(TrimLeft(s))
  }

  /**
   * `r` is the slice of `s` that starts at `a`, and every character of `s`
   * outside that slice is white space.
   */
  ghost predicate InfixAt(s: string, r: string, a: int)
  {
    0 <= a <= |s| - |r| && r == s[a..a + |r|]
    && (forall k :: 0 <= k < a || a + |r| <= k < |s| ==> IsSpace(s[k]))
  }

  /**
   * `strings.TrimSpace` removes only leading and trailing white space: the
   * result is the slice of the input that starts right after the leading run,
   * and every character outside that slice is white space.
   */
  lemma TrimSpaceInfix(s: string)
    ensures InfixAt(s, TrimSpace(s), |s| - |TrimLeft(s)|)
  {
    var left := TrimLeft(s);
    var r := TrimRight(left);
    TrimFacts(s, left, r);
  }

  /** The trimmed text is a prefix of the text without its leading white space, followed there only by white space. */
  lemma TrimSpaceOfLeft(s: string)
    ensures TrimSpace(s) <= TrimLeft(s)
    ensures |TrimSpace(s)| == 0 || !IsSpace(TrimSpace(s)[|TrimSpace(s)| - 1])
    ensures forall k :: |TrimSpace(s)| <= k < |TrimLeft(s)| ==> IsSpace(TrimLeft(s)[k])
  {
  }

  /** Lower-casing of one character: ASCII capitals become small letters, the rest is kept. */
  function LowerChar(c: char): (l: char)
  {
    if 'A' <= c <= 'Z' then c - 'A' + 'a' else c
  }

  /** Lower-casing of a string, character by character. */
  function ToLower(s: string): (r: string)
    ensures |r| == |s|
    ensures forall k :: 0 <= k < |s| ==> r[k] == LowerChar(s[k])
  {
    if |s| == 0 then "" else [LowerChar(s[0])] + ToLower(s[1..])
  }

  /**
   * Whether the answer read by `askConfirmation` accepts: `None` is a failed
   * read, which declines.
   */
  function Confirmed(response: Option<string>): (yes: bool)
  {
    if response.None? then false
    else
      var answer := ToLower(TrimSpace(response.value));
      answer == "y" || answer == "yes"
  }

  /** A character is one of two, ignoring ASCII case. */
  predicate EitherCase(c: char, lower: char, upper: char)
  {
    c == lower || c == upper
  }

  /** A character lower-cases to a small letter exactly when it is that letter or its capital. */
  lemma LowerCharIs(c: char, lower: char, upper: char)
    requires 'a' <= lower <= 'z' && upper as int == lower as int - 32
    ensures LowerChar(c) == lower <==> EitherCase(c, lower, upper)
  {
  }

  /** A string lower-cases to "y" exactly when it is "y" or "Y". */
  lemma LowerIsY(t: string)
    ensures ToLower(t) == "y" <==> |t| == 1 && EitherCase(t[0], 'y', 'Y')
  {
    var l := ToLower(t);
    if |t| == 1 {
      LowerCharIs(t[0], 'y', 'Y');
      assert l == "y" <==> l[0] == 'y';
    } else {
      assert |l| != |"y"|;
    }
  }

  /** A string lower-cases to "yes" exactly when it is "yes" in any mix of case. */
  lemma LowerIsYes(t: string)
    ensures ToLower(t) == "yes" <==>
      |t| == 3 && EitherCase(t[0], 'y', 'Y') && EitherCase(t[1], 'e', 'E') && EitherCase(t[2], 's', 'S')
  {
    var l := ToLower(t);
    if |t| == 3 {
      LowerCharIs(t[0], 'y', 'Y');
      LowerCharIs(t[1], 'e', 'E');
      LowerCharIs(t[2], 's', 'S');
      assert l == "yes" <==> l[0] == 'y' && l[1] == 'e' && l[2] == 's';
    } else {
      assert |l| != |"yes"|;
    }
  }

  /**
   * The answer accepts exactly when, with the surrounding white space removed,
   * it is "y" or "yes" in any mix of upper and lower case.
   */
  lemma ConfirmedAnswers(response: Option<string>)
    ensures Confirmed(response) <==>
      && response.Some?
      && var t := TrimSpace(response.value);
        || (|t| == 1 && EitherCase(t[0], 'y', 'Y'))
        || (|t| == 3 && EitherCase(t[0], 'y', 'Y') && EitherCase(t[1], 'e', 'E') && EitherCase(t[2], 's', 'S'))
  {
    if response.Some? {
      LowerIsY(TrimSpace(response.value));
      LowerIsYes(TrimSpace(response.value));
    }
  }
}
