/**
 * The tokenizer: a pure string pipeline. Every character of a fixed
 * punctuation class becomes a space, the result is split on every single
 * whitespace character, empty pieces are dropped and each piece is lowercased.
 *
 * Next to the pipeline stands an independent reference definition, `Runs`:
 * the maximal runs of non-separator characters, scanned left to right. The
 * main lemma says the pipeline yields exactly those runs, lowercased; the
 * other properties (non-empty, separator-free, lowercase tokens; the
 * join-and-retokenize round trip) follow from it.
 */
module Tokenizer {

  /** The characters of the regular-expression class that is replaced by spaces. */
  const Punctuation: set<char> := {
    '\U{201D}', '\U{201C}', '\U{2019}', '\U{2022}', '\U{2014}', '\U{2026}',
    '|', '@', '$', '/', '#', '\U{00B0}', '-', ':', '&', '*', '+', '=', '[', ']',
    '?', '!', '(', ')', '{', '}', ',', '\'', '"', '>', '_', '<', ';', '%', '\\', '.'
  }

  /** The predefined class `\s` of Java regular expressions: [ \t\n\x0B\f\r]. */
  const Whitespace: set<char> := {' ', '\t', '\n', '\U{000B}', '\U{000C}', '\r'}

  predicate IsPunctuation(c: char) { c in Punctuation }

  predicate IsWhitespace(c: char) { c in Whitespace }

  /** A character that can never be part of a token. */
  predicate IsSeparator(c: char) { IsWhitespace(c) || IsPunctuation(c) }

  predicate IsUpperAscii(c: char) { 'A' <= c <= 'Z' }

  // ---------------------------------------------------------------------------
  // The pipeline, step by step
  // ---------------------------------------------------------------------------

  /**
   * Step 1: every punctuation character becomes a space. No punctuation is
   * left, and a character of the result is whitespace exactly when the
   * original one was a separator.
   */
  function ReplacePunctuation(s: string): (r: string)
    ensures |r| == |s|
    ensures forall i :: 0 <= i < |r| ==> !IsPunctuation(r[i])
    ensures forall i :: 0 <= i < |s| ==> (IsWhitespace(r[i]) <==> IsSeparator(s[i]))
    ensures forall i :: 0 <= i < |s| ==> IsSeparator(r[i]) == IsSeparator(s[i])
    ensures forall i :: 0 <= i < |s| && !IsSeparator(s[i]) ==> r[i] == s[i]
  {
    seq(|s|, i requires 0 <= i < |s| => if IsPunctuation(s[i]) then ' ' else s[i])
  }

  /** The number of whitespace characters of `s`. */
  function Whitespaces(s: string): nat
  {
    if s == [] then 0 else (if IsWhitespace(s[0]) then 1 else 0) + Whitespaces(s[1..])
  }

  /**
   * Every piece between single whitespace characters, empty pieces included:
   * two adjacent separators delimit an empty piece, and a separator at either
   * end delimits an empty first or last piece.
   */
  function Pieces(s: string): (pieces: seq<string>)
    ensures |pieces| == 1 + Whitespaces(s)
    ensures forall t, i :: t in pieces && 0 <= i < |t| ==> !IsWhitespace(t[i])
  {
    if s == [] then [[]]
    else if IsWhitespace(s[0]) then [[]] + Pieces(s[1..])
    else
      var rest := Pieces(s[1..]);
      assert rest[0] in rest;
      var first := [s[0]] + rest[0];
      assert forall i :: 0 <= i < |first| ==> !IsWhitespace(first[i]);
      assert forall t :: t in [first] + rest[1..] ==> t == first || t in rest;
      [first] + rest[1..]
  }

  /** `pieces` without its trailing empty pieces. */
  function TrimTrailingEmpty(pieces: seq<string>): (r: seq<string>)
    ensures r <= pieces
    ensures r == [] || r[|r| - 1] != []
    ensures forall i :: |r| <= i < |pieces| ==> pieces[i] == []
  {
    if pieces == [] then []
    else if pieces[|pieces| - 1] == [] then TrimTrailingEmpty(pieces[..|pieces| - 1])
    else pieces
  }

  /**
   * Step 2, Java's `split` on `\s`: a string without whitespace is its own
   * single piece (the empty string included); otherwise every piece, with the
   * trailing empty pieces removed.
   */
  function Split(s: string): (pieces: seq<string>)
    ensures (forall i :: 0 <= i < |s| ==> !IsWhitespace(s[i])) ==> pieces == [s]
    ensures (exists i :: 0 <= i < |s| && IsWhitespace(s[i])) ==>
              pieces <= Pieces(s) && (pieces == [] || pieces[|pieces| - 1] != [])
              && forall i :: |pieces| <= i < |Pieces(s)| ==> Pieces(s)[i] == []
    ensures DropEmpty(pieces) == DropEmpty(Pieces(s))
  {
    if forall i :: 0 <= i < |s| ==> !IsWhitespace(s[i]) then
      PiecesOfPrefix(s, []);
      assert s + [] == s;
      [s]
    else
      var all := Pieces(s);
      var r := TrimTrailingEmpty(all);
      TrimKeepsNonEmpty(all);
      r
  }

  /** Dropping the empty pieces ignores trailing empty pieces. */
  lemma {:induction false} TrimKeepsNonEmpty(pieces: seq<string>)
    ensures DropEmpty(TrimTrailingEmpty(pieces)) == DropEmpty(pieces)
  {
    if pieces != [] && pieces[|pieces| - 1] == [] {
      var init := pieces[..|pieces| - 1];
      TrimKeepsNonEmpty(init);
      DropEmptyAppend(init, [[]]);
      assert pieces == init + [[]];
    }
  }

  /** Dropping the empty pieces distributes over concatenation. */
  lemma {:induction false} DropEmptyAppend(a: seq<string>, b: seq<string>)
    ensures DropEmpty(a + b) == DropEmpty(a) + DropEmpty(b)
  {
    if a == [] {
      assert a + b == b;
    } else {
      var head := if a[0] == [] then [] else [a[0]];
      assert (a + b)[0] == a[0] && (a + b)[1..] == a[1..] + b;
      calc {
        DropEmpty(a + b);
        head + DropEmpty(a[1..] + b);
        { DropEmptyAppend(a[1..], b); }
        head + (DropEmpty(a[1..]) + DropEmpty(b));
        (head + DropEmpty(a[1..])) + DropEmpty(b);
        DropEmpty(a) + DropEmpty(b);
      }
    }
  }

  /** Step 3: keep the non-empty pieces, in order. */
  function DropEmpty(pieces: seq<string>): (r: seq<string>)
    ensures forall t :: t in r ==> t in pieces && t != []
    ensures forall t :: t in pieces && t != [] ==> t in r
  {
    if pieces == [] then []
    else (if pieces[0] == [] then [] else [pieces[0]]) + DropEmpty(pieces[1..])
  }

  /** ASCII case mapping: 'A'..'Z' to 'a'..'z', every other character unchanged. */
  function LowerChar(c: char): char
  {
    if IsUpperAscii(c) then (c as int + 32) as char else c
  }

  /**
   * Lowercasing a word keeps its length, yields no 'A'..'Z', never makes or
   * unmakes a separator, and leaves an already lowercase word unchanged.
   */
  function ToLowerCase(w: string): (r: string)
    ensures |r| == |w|
    ensures NoUpperAscii(r)
    ensures forall i :: 0 <= i < |w| ==> IsSeparator(r[i]) == IsSeparator(w[i])
    ensures NoUpperAscii(w) ==> r == w
  {
    seq(|w|, i requires 0 <= i < |w| => LowerChar(w[i]))
  }

  /** Step 4: lowercase every piece. */
  function LowerAll(ws: seq<string>): (r: seq<string>)
    ensures |r| == |ws|
    ensures forall i :: 0 <= i < |ws| ==> r[i] == ToLowerCase(ws[i])
  {
    if ws == [] then [] else [ToLowerCase(ws[0])] + LowerAll(ws[1..])
  }

  /**
   * The whole pipeline. The tokens are the maximal runs of non-separator
   * characters of the content, in order, lowercased.
   */
  function Tokenize(content: string): (tokens: seq<string>)
    ensures tokens == LowerAll(Runs(content))
  {
    PiecesAreRuns(content);
    LowerAll(DropEmpty(Split(ReplacePunctuation(content))))
  }

  // ---------------------------------------------------------------------------
  // Reference definition: maximal runs of non-separator characters
  // ---------------------------------------------------------------------------

  /** Length of the run of non-separator characters that starts `s`. */
  function RunLength(s: string): (k: nat)
    ensures k <= |s|
    ensures forall i :: 0 <= i < k ==> !IsSeparator(s[i])
    ensures k == |s| || IsSeparator(s[k])
  {
    if s == [] || IsSeparator(s[0]) then 0 else 1 + RunLength(s[1..])
  }

  /** The maximal runs of non-separator characters of `s`, left to right. */
  function Runs(s: string): seq<string>
    decreases |s|
  {
    if s == [] then []
    else if IsSeparator(s[0]) then Runs(s[1..])
    else
      var k := RunLength(s);
      [s[..k]] + Runs(s[k..])
  }

  /** Tokens joined by single spaces (the inverse direction of the round trip). */
  function JoinWithSpaces(ts: seq<string>): string
  {
    if ts == [] then []
    else if |ts| == 1 then ts[0]
    else ts[0] + [' '] + JoinWithSpaces(ts[1..])
  }

  predicate NoSeparator(w: string) { forall i :: 0 <= i < |w| ==> !IsSeparator(w[i]) }

  predicate NoUpperAscii(w: string) { forall i :: 0 <= i < |w| ==> !IsUpperAscii(w[i]) }

  // ---------------------------------------------------------------------------
  // The pipeline computes the reference definition
  // ---------------------------------------------------------------------------

  /** A whitespace-free prefix is glued onto the first piece of what follows. */
  lemma {:induction false} PiecesOfPrefix(w: string, t: string)
    requires forall i :: 0 <= i < |w| ==> !IsWhitespace(w[i])
    ensures Pieces(w + t) == [w + Pieces(t)[0]] + Pieces(t)[1..]
  {
    if w == [] {
      assert w + t == t;
      assert w + Pieces(t)[0] == Pieces(t)[0];
    } else {
      assert (w + t)[1..] == w[1..] + t;
      PiecesOfPrefix(w[1..], t);
      assert [w[0]] + (w[1..] + Pieces(t)[0]) == w + Pieces(t)[0];
    }
  }

  /** Replacing punctuation distributes over a split of the string. */
  lemma ReplaceAppend(s: string, k: nat)
    requires k <= |s|
    ensures ReplacePunctuation(s) == ReplacePunctuation(s[..k]) + ReplacePunctuation(s[k..])
  {
  }

  lemma ReplaceTail(s: string)
    requires s != []
    ensures ReplacePunctuation(s)[1..] == ReplacePunctuation(s[1..])
  {
  }

  lemma {:induction false} DropEmptyCons(x: string, rest: seq<string>)
    ensures DropEmpty([x] + rest) == (if x == [] then [] else [x]) + DropEmpty(rest)
  {
    assert ([x] + rest)[1..] == rest;
  }

  /** A leading separator contributes only an empty piece, which is dropped. */
  lemma SeparatorPieces(s: string)
    requires s != [] && IsSeparator(s[0])
    ensures DropEmpty(Pieces(ReplacePunctuation(s))) == DropEmpty(Pieces(ReplacePunctuation(s[1..])))
  {
    PiecesAfterSeparator(s);
    DropEmptyCons([], Pieces(ReplacePunctuation(s[1..])));
  }

  /** A leading separator splits off an empty first piece. */
  lemma PiecesAfterSeparator(t: string)
    requires t != [] && IsSeparator(t[0])
    ensures Pieces(ReplacePunctuation(t)) == [[]] + Pieces(ReplacePunctuation(t[1..]))
  {
    ReplaceTail(t);
    assert IsWhitespace(ReplacePunctuation(t)[0]);
  }

  /** The leading run is glued onto the first piece of the rest. */
  lemma PiecesAfterWord(s: string, k: nat)
    requires k == RunLength(s)
    ensures var q := Pieces(ReplacePunctuation(s[k..]));
      Pieces(ReplacePunctuation(s)) == [s[..k] + q[0]] + q[1..]
  {
    ReplaceAppend(s, k);
    assert ReplacePunctuation(s[..k]) == s[..k];
    PiecesOfPrefix(s[..k], ReplacePunctuation(s[k..]));
  }

  /** A leading run that ends the string is its only piece. */
  lemma WordPiecesLast(s: string, k: nat)
    requires s != [] && !IsSeparator(s[0]) && k == RunLength(s) == |s|
    ensures DropEmpty(Pieces(ReplacePunctuation(s))) == [s]
  {
    var q := Pieces(ReplacePunctuation(s[k..]));
    PiecesAfterWord(s, k);
    assert q == [[]] by {
      assert s[k..] == [];
    }
    assert s[..k] == s;
    GlueOnto(s, q, []);
  }

  /** A leading run followed by a separator is the first piece; the rest is split on its own. */
  lemma WordPiecesMore(s: string, k: nat)
    requires s != [] && !IsSeparator(s[0]) && k == RunLength(s) < |s|
    ensures DropEmpty(Pieces(ReplacePunctuation(s))) == [s[..k]] + DropEmpty(Pieces(ReplacePunctuation(s[k + 1..])))
  {
    var q := Pieces(ReplacePunctuation(s[k..]));
    PiecesAfterWord(s, k);
    var rest := Pieces(ReplacePunctuation(s[k + 1..]));
    assert q == [[]] + rest by {
      assert s[k..][1..] == s[k + 1..];
      PiecesAfterSeparator(s[k..]);
    }
    GlueOnto(s[..k], q, rest);
  }

  /** A non-empty word glued onto an empty first piece stays a piece of its own. */
  lemma GlueOnto(w: string, q: seq<string>, rest: seq<string>)
    requires w != [] && q == [[]] + rest
    ensures DropEmpty([w + q[0]] + q[1..]) == [w] + DropEmpty(rest)
  {
    assert w + q[0] == w;
    assert q[1..] == rest;
    DropEmptyCons(w, rest);
  }

  /** Main lemma: split-and-drop-empty after replacement yields exactly the maximal runs. */
  lemma {:induction false} PiecesAreRuns(s: string)
    ensures DropEmpty(Pieces(ReplacePunctuation(s))) == Runs(s)
    decreases |s|
  {
    if s == [] {
    } else if IsSeparator(s[0]) {
      SeparatorPieces(s);
      PiecesAreRuns(s[1..]);
    } else {
      var k := RunLength(s);
      if k < |s| {
        WordPiecesMore(s, k);
        PiecesAreRuns(s[k + 1..]);
        assert s[k..][1..] == s[k + 1..];
      } else {
        WordPiecesLast(s, k);
        assert s[..k] == s && s[k..] == [];
      }
    }
  }

  // ---------------------------------------------------------------------------
  // Properties of the reference definition
  // ---------------------------------------------------------------------------

  /** Every run is non-empty and separator-free. */
  lemma {:induction false} RunsWellFormed(s: string)
    ensures forall t :: t in Runs(s) ==> t != [] && NoSeparator(t)
    decreases |s|
  {
    if s == [] {
    } else if IsSeparator(s[0]) {
      RunsWellFormed(s[1..]);
    } else {
      var k := RunLength(s);
      RunsWellFormed(s[k..]);
    }
  }

  /** There are no runs exactly when every character is a separator. */
  lemma {:induction false} RunsEmptyIff(s: string)
    ensures Runs(s) == [] <==> forall i :: 0 <= i < |s| ==> IsSeparator(s[i])
    decreases |s|
  {
    if s == [] {
    } else if IsSeparator(s[0]) {
      RunsEmptyIff(s[1..]);
      if Runs(s) == [] {
        forall i | 0 <= i < |s| ensures IsSeparator(s[i]) {
          if i > 0 { assert s[i] == s[1..][i - 1]; }
        }
      }
    } else {
    }
  }

  /** A separator-free word followed by nothing or by a separator is one whole run. */
  lemma {:induction false} RunLengthOfWord(w: string, rest: string)
    requires NoSeparator(w)
    requires rest == [] || IsSeparator(rest[0])
    ensures RunLength(w + rest) == |w|
  {
    if w != [] {
      assert (w + rest)[1..] == w[1..] + rest;
      RunLengthOfWord(w[1..], rest);
    } else {
      assert w + rest == rest;
    }
  }

  /** Joining well-formed tokens with single spaces and taking runs gives the tokens back. */
  lemma {:induction false} RunsOfJoin(ts: seq<string>)
    requires forall t :: t in ts ==> t != [] && NoSeparator(t)
    ensures Runs(JoinWithSpaces(ts)) == ts
  {
    if ts == [] {
    } else if |ts| == 1 {
      var w := ts[0];
      RunLengthOfWord(w, []);
      assert w + [] == w;
      assert w[|w|..] == [];
      assert w[..|w|] == w;
    } else {
      var w := ts[0];
      var rest := [' '] + JoinWithSpaces(ts[1..]);
      var j := JoinWithSpaces(ts);
      assert j == w + rest;
      RunLengthOfWord(w, rest);
      assert j[..|w|] == w;
      assert j[|w|..] == rest;
      assert rest[1..] == JoinWithSpaces(ts[1..]);
      assert forall t :: t in ts[1..] ==> t in ts;
      RunsOfJoin(ts[1..]);
      assert Runs(j) == [w] + Runs(rest);
      assert ts == [ts[0]] + ts[1..];
    }
  }

  /** Lowercasing a character never makes or unmakes a separator, and never yields 'A'..'Z'. */
  lemma LowerCharFacts(c: char)
    ensures IsSeparator(LowerChar(c)) == IsSeparator(c)
    ensures !IsUpperAscii(LowerChar(c))
    ensures !IsUpperAscii(c) ==> LowerChar(c) == c
  {
  }

  // ---------------------------------------------------------------------------
  // Properties of the tokens
  // ---------------------------------------------------------------------------

  /**
   * Every token is non-empty, holds no whitespace and no punctuation
   * character, and holds no upper-case ASCII letter.
   */
  lemma TokensWellFormed(content: string)
    ensures forall t :: t in Tokenize(content) ==> t != []
    ensures forall t :: t in Tokenize(content) ==> NoSeparator(t)
    ensures forall t, i :: t in Tokenize(content) && 0 <= i < |t| ==> !IsWhitespace(t[i]) && !IsPunctuation(t[i])
    ensures forall t :: t in Tokenize(content) ==> NoUpperAscii(t)
  {
    var runs := Runs(content);
    assert Tokenize(content) == LowerAll(runs);
    RunsWellFormed(content);
    forall t | t in Tokenize(content)
      ensures t != [] && NoSeparator(t) && NoUpperAscii(t)
    {
      var i :| 0 <= i < |runs| && Tokenize(content)[i] == t;
      assert runs[i] in runs;
      forall j | 0 <= j < |t| ensures !IsSeparator(t[j]) && !IsUpperAscii(t[j]) {
        LowerCharFacts(runs[i][j]);
      }
    }
  }

  /** The content yields no token exactly when it consists only of separators. */
  lemma NoTokensIff(content: string)
    ensures Tokenize(content) == [] <==> forall i :: 0 <= i < |content| ==> IsSeparator(content[i])
  {
    assert Tokenize(content) == LowerAll(Runs(content));
    RunsEmptyIff(content);
  }

  /** Lowercasing already-lowercase tokens changes nothing. */
  lemma LowerAllIdentity(ts: seq<string>)
    requires forall t :: t in ts ==> NoUpperAscii(t)
    ensures LowerAll(ts) == ts
  {
    forall i | 0 <= i < |ts| ensures ToLowerCase(ts[i]) == ts[i] {
      assert ts[i] in ts;
    }
  }

  /** Re-tokenizing the tokens joined by single spaces returns the same tokens. */
  lemma RetokenizeJoined(content: string)
    ensures Tokenize(JoinWithSpaces(Tokenize(content))) == Tokenize(content)
  {
    var ts := Tokenize(content);
    TokensWellFormed(content);
    assert Tokenize(JoinWithSpaces(ts)) == LowerAll(Runs(JoinWithSpaces(ts)));
    RunsOfJoin(ts);
    LowerAllIdentity(ts);
  }
}
