/**
  The accept rule of the intake dialogue: the validator's reply is accepted
  exactly when, trimmed and lower-cased, it is the word "yes".

  `Trim` follows JavaScript's `String.prototype.trim`, whose whitespace is the
  WhiteSpace and LineTerminator code points of the ECMAScript grammar.
  `ToLower` folds only the ASCII letters.
 */
module Validity {

  /** A code point that JavaScript's `trim` strips: WhiteSpace (tab, vertical tab,
      form feed, the byte-order mark and every space separator) and LineTerminator. */
  predicate IsWhitespace(c: char)
  {
    || c == '\t' || c == '\n' || c == '\U{B}' || c == '\U{C}' || c == '\r' || c == ' '
    || c == '\U{A0}' || c == '\U{1680}' || ('\U{2000}' <= c <= '\U{200A}')
    || c == '\U{2028}' || c == '\U{2029}' || c == '\U{202F}' || c == '\U{205F}'
    || c == '\U{3000}' || c == '\U{FEFF}'
  }

  predicate AllWhitespace(s: string)
  {
    forall i :: 0 <= i < |s| ==> IsWhitespace(s[i])
  }

  /** `s` without its leading whitespace. */
  function TrimStart(s: string): string
  {
    if s != [] && IsWhitespace(s[0]) then TrimStart(s[1..]) else s
  }

  /** `s` without its trailing whitespace. */
  function TrimEnd(s: string): string
  {
    if s != [] && IsWhitespace(s[|s| - 1]) then TrimEnd(s[..|s| - 1]) else s
  }

  /** JavaScript's `trim`: `s` without leading and trailing whitespace. */
  function Trim(s: string): string
  {
    TrimEnd(TrimStart(s))
  }

  /** `TrimStart` removes a whitespace prefix, and the longest one. */
  lemma {:induction false} TrimStartSpec(s: string)
    ensures |TrimStart(s)| <= |s| && TrimStart(s) == s[|s| - |TrimStart(s)|..]
    ensures AllWhitespace(s[..|s| - |TrimStart(s)|])
    ensures TrimStart(s) == [] || !IsWhitespace(TrimStart(s)[0])
  {
    if s != [] && IsWhitespace(s[0]) {
      TrimStartSpec(s[1..]);
      var n := |s| - |TrimStart(s)|;
      assert s[1..][..n - 1] == s[1..n];
    }
  }

  /** `TrimEnd` removes a whitespace suffix, and the longest one. */
  lemma {:induction false} TrimEndSpec(s: string)
    ensures |TrimEnd(s)| <= |s| && TrimEnd(s) == s[..|TrimEnd(s)|]
    ensures AllWhitespace(s[|TrimEnd(s)|..])
    ensures TrimEnd(s) == [] || !IsWhitespace(TrimEnd(s)[|TrimEnd(s)| - 1])
  {
    if s != [] && IsWhitespace(s[|s| - 1]) {
      var shorter := s[..|s| - 1];
      TrimEndSpec(shorter);
      var n := |TrimEnd(s)|;
      assert shorter[..n] == s[..n];
      assert s[n..] == shorter[n..] + [s[|s| - 1]];
    }
  }

  /** `Trim(s)` is a slice of `s` with only whitespace on either side of it, and it
      neither starts nor ends with whitespace. */
  lemma TrimSpec(s: string) returns (i: nat)
    ensures i + |Trim(s)| <= |s|
    ensures Trim(s) == s[i..i + |Trim(s)|]
    ensures AllWhitespace(s[..i]) && AllWhitespace(s[i + |Trim(s)|..])
    ensures Trim(s) == [] || (!IsWhitespace(Trim(s)[0]) && !IsWhitespace(Trim(s)[|Trim(s)| - 1]))
  {
    TrimStartSpec(s);
    var t := TrimStart(s);
    TrimEndSpec(t);
    i := |s| - |t|;
    var r := TrimEnd(t);
    assert s[i..][..|r|] == s[i..i + |r|];
    assert s[i + |r|..] == t[|r|..];
  }

  /** Leading whitespace in front of a string that starts with none is what `TrimStart` removes. */
  lemma {:induction false} TrimStartPadded(lead: string, rest: string)
    requires AllWhitespace(lead)
    requires rest == [] || !IsWhitespace(rest[0])
    ensures TrimStart(lead + rest) == rest
  {
    if lead == [] {
      assert lead + rest == rest;
    } else {
      assert (lead + rest)[1..] == lead[1..] + rest;
      TrimStartPadded(lead[1..], rest);
    }
  }

  /** Trailing whitespace after a string that ends with none is what `TrimEnd` removes. */
  lemma {:induction false} TrimEndPadded(rest: string, trail: string)
    requires AllWhitespace(trail)
    requires rest == [] || !IsWhitespace(rest[|rest| - 1])
    ensures TrimEnd(rest + trail) == rest
  {
    if trail == [] {
      assert rest + trail == rest;
    } else {
      var shorter := trail[..|trail| - 1];
      assert (rest + trail)[..|rest + trail| - 1] == rest + shorter;
      TrimEndPadded(rest, shorter);
    }
  }

  /** Trimming a string padded with whitespace gives back the padded core,
      provided the core does not itself start or end with whitespace. */
  lemma TrimPadded(lead: string, core: string, trail: string)
    requires AllWhitespace(lead) && AllWhitespace(trail)
    requires core == [] || (!IsWhitespace(core[0]) && !IsWhitespace(core[|core| - 1]))
    ensures Trim(lead + core + trail) == core
  {
    if core == [] {
      assert lead + core + trail == (lead + trail) + [];
      assert AllWhitespace(lead + trail) by {
        var w := lead + trail;
        forall i | 0 <= i < |w| ensures IsWhitespace(w[i]) {
          if i < |lead| { assert w[i] == lead[i]; } else { assert w[i] == trail[i - |lead|]; }
        }
      }
      TrimStartPadded(lead + trail, []);
    } else {
      assert lead + core + trail == lead + (core + trail);
      TrimStartPadded(lead, core + trail);
      TrimEndPadded(core, trail);
    }
  }

  /** ASCII lower-casing of one character. */
  function LowerChar(c: char): char
  {
    if 'A' <= c <= 'Z' then (c as int - 'A' as int + 'a' as int) as char else c
  }

  /** Lower-casing as the accept rule sees it: a character folds to one of the
      letters of "yes" exactly when it is that letter in either case, and no
      character folds to an ASCII capital. */
  lemma LowerCharYes(c: char)
    ensures LowerChar(c) == 'y' <==> c == 'y' || c == 'Y'
    ensures LowerChar(c) == 'e' <==> c == 'e' || c == 'E'
    ensures LowerChar(c) == 's' <==> c == 's' || c == 'S'
    ensures !('A' <= LowerChar(c) <= 'Z')
  {
  }

  /** `s` lower-cased character by character. */
  function ToLower(s: string): string
  {
    if s == [] then [] else [LowerChar(s[0])] + ToLower(s[1..])
  }

  /** `ToLower` keeps the length and lower-cases each character in place. */
  lemma {:induction false} ToLowerSpec(s: string)
    ensures |ToLower(s)| == |s|
    ensures forall i :: 0 <= i < |s| ==> ToLower(s)[i] == LowerChar(s[i])
  {
    if s != [] {
      ToLowerSpec(s[1..]);
    }
  }

  /** The accept rule: the reply, trimmed and lower-cased, is exactly "yes". */
  predicate IsYes(reply: string)
  {
    ToLower(Trim(reply)) == "yes"
  }

  /** The three-letter spellings of "yes" in any mix of upper and lower case. */
  predicate SpellsYes(t: string)
  {
    && |t| == 3
    && (t[0] == 'y' || t[0] == 'Y')
    && (t[1] == 'e' || t[1] == 'E')
    && (t[2] == 's' || t[2] == 'S')
  }

  /** A reply is accepted exactly when its trimmed text is "yes" in some letter case. */
  lemma IsYesIff(reply: string)
    ensures IsYes(reply) <==> SpellsYes(Trim(reply))
  {
    var t := Trim(reply);
    ToLowerSpec(t);
    if SpellsYes(t) {
      assert ToLower(t) == "yes" by {
        assert ToLower(t)[0] == 'y' && ToLower(t)[1] == 'e' && ToLower(t)[2] == 's';
      }
    }
    if IsYes(reply) {
      assert ToLower(t)[0] == 'y' && ToLower(t)[1] == 'e' && ToLower(t)[2] == 's';
    }
  }

  /** Every accepted reply is "yes" in some letter case with only whitespace around it. */
  lemma AcceptedReplyShape(reply: string) returns (i: nat)
    requires IsYes(reply)
    ensures i + 3 <= |reply| && SpellsYes(reply[i..i + 3])
    ensures AllWhitespace(reply[..i]) && AllWhitespace(reply[i + 3..])
  {
    IsYesIff(reply);
    i := TrimSpec(reply);
  }

  /** Conversely, "yes" in any letter case with any whitespace around it is accepted. */
  lemma PaddedYesAccepted(lead: string, word: string, trail: string)
    requires AllWhitespace(lead) && AllWhitespace(trail) && SpellsYes(word)
    ensures IsYes(lead + word + trail)
  {
    TrimPadded(lead, word, trail);
    IsYesIff(lead + word + trail);
  }

  /** Case and surrounding whitespace do not matter to the rule. */
  lemma AcceptedExamples()
    ensures IsYes("Yes") && IsYes("YES") && IsYes(" yes\n")
  {
    PaddedYesAccepted("", "Yes", "");
    assert "" + "Yes" + "" == "Yes";
    PaddedYesAccepted("", "YES", "");
    assert "" + "YES" + "" == "YES";
    PaddedYesAccepted(" ", "yes", "\n");
    assert " " + "yes" + "\n" == " yes\n";
  }

  /** The strictness of the rule: punctuation, extra words, a "No" and the
      empty reply are all rejections. */
  lemma RejectedExamples()
    ensures !IsYes("Yes.") && !IsYes("No") && !IsYes("") && !IsYes("Yes, it is")
  {
    RejectedCore("Yes.");
    RejectedCore("No");
    RejectedCore("");
    RejectedCore("Yes, it is");
  }

  /** A reply with no surrounding whitespace is accepted only if it spells "yes". */
  lemma RejectedCore(reply: string)
    requires reply == [] || (!IsWhitespace(reply[0]) && !IsWhitespace(reply[|reply| - 1]))
    requires !SpellsYes(reply)
    ensures !IsYes(reply)
  {
    TrimPadded("", reply, "");
    assert "" + reply + "" == reply;
    IsYesIff(reply);
  }
}
