/** Search-word extraction: the input is lower-cased, then every maximal run
    of word characters (ASCII letters, digits, underscore) of length at
    least two is a word, taken left to right. */
module Words {

  predicate IsWordChar(c: char) {
    'a' <= c <= 'z' || 'A' <= c <= 'Z' || '0' <= c <= '9' || c == '_'
  }

  predicate IsUpper(c: char) {
    'A' <= c <= 'Z'
  }

  /** ASCII lower-casing of one character. */
  function ToLower(c: char): (r: char)
    ensures !IsUpper(r)
    ensures IsWordChar(r) <==> IsWordChar(c)
    ensures IsUpper(c) || r == c
  {
    if IsUpper(c) then (c as int + 32) as char else c
  }

  function LowerCase(s: string): (r: string)
    ensures |r| == |s|
    ensures forall i | 0 <= i < |s| :: r[i] == ToLower(s[i])
    ensures forall c | c in r :: !IsUpper(c)
  {
    seq(|s|, i requires 0 <= i < |s| => ToLower(s[i]))
  }

  /** A word as the search accepts it: two or more word characters. */
  predicate IsToken(t: string) {
    |t| >= 2 && forall i | 0 <= i < |t| :: IsWordChar(t[i])
  }

  /** The length of the run of word characters that starts `s`. */
  function RunLength(s: string): (n: nat)
    ensures n <= |s|
    ensures forall i | 0 <= i < n :: IsWordChar(s[i])
    ensures n < |s| ==> !IsWordChar(s[n])
  {
    if s == [] || !IsWordChar(s[0]) then 0 else 1 + RunLength(s[1..])
  }

  /** The maximal runs of word characters in `s` of length two or more, in order. */
  function Tokens(s: string): (ts: seq<string>)
    ensures forall t | t in ts :: IsToken(t) && forall c | c in t :: c in s
    decreases |s|
  {
    if s == [] then []
    else if !IsWordChar(s[0]) then Tokens(s[1..])
    else
      var n := RunLength(s);
      (if n >= 2 then [s[..n]] else []) + Tokens(s[n..])
  }

  /** The words a search string contributes: each a lower-case token. */
  function ExtractWords(text: string): (words: seq<string>)
    ensures forall w | w in words :: IsToken(w) && forall c | c in w :: !IsUpper(c)
  {
    Tokens(LowerCase(text))
  }

  /** The `len` characters of `s` from index `k`. */
  function Piece(s: string, k: nat, len: nat): string
    requires k + len <= |s|
  {
    s[k..k + len]
  }

  /** `t` occurs in `s` as a contiguous piece. */
  predicate IsSliceOf(t: string, s: string) {
    exists k: nat | k + |t| <= |s| :: Piece(s, k, |t|) == t
  }

  /** A piece of a suffix of `s` is a piece of `s`. */
  lemma SliceOfSuffix(t: string, s: string, d: nat)
    requires d <= |s| && IsSliceOf(t, s[d..])
    ensures IsSliceOf(t, s)
  {
    var k: nat :| k + |t| <= |s[d..]| && Piece(s[d..], k, |t|) == t;
    assert Piece(s, d + k, |t|) == Piece(s[d..], k, |t|);
  }

  /** Every token is a contiguous run of the input, not just characters drawn from it. */
  lemma {:induction false} TokensAreSlices(s: string)
    ensures forall t | t in Tokens(s) :: IsSliceOf(t, s)
    decreases |s|
  {
    if s == [] {
    } else if !IsWordChar(s[0]) {
      TokensAreSlices(s[1..]);
      forall t | t in Tokens(s[1..]) ensures IsSliceOf(t, s) {
        SliceOfSuffix(t, s, 1);
      }
    } else {
      var n := RunLength(s);
      TokensAreSlices(s[n..]);
      forall t | t in Tokens(s[n..]) ensures IsSliceOf(t, s) {
        SliceOfSuffix(t, s, n);
      }
      if n >= 2 {
        assert Piece(s, 0, |s[..n]|) == s[..n];
      }
    }
  }

  /** A string made only of word characters is one word, or none when shorter than two. */
  lemma {:induction false} TokensOfRun(w: string)
    requires forall i | 0 <= i < |w| :: IsWordChar(w[i])
    ensures Tokens(w) == if |w| >= 2 then [w] else []
  {
    if w != [] {
      RunLengthOfRun(w);
      assert w[|w|..] == [];
      assert w[..|w|] == w;
    }
  }

  lemma {:induction false} RunLengthOfRun(w: string)
    requires forall i | 0 <= i < |w| :: IsWordChar(w[i])
    ensures RunLength(w) == |w|
  {
    if w != [] {
      RunLengthOfRun(w[1..]);
    }
  }

  /** A non-word character separates: the words of `a + [c] + b` are those of `a`
      followed by those of `b`. */
  lemma {:induction false} TokensSplit(a: string, c: char, b: string)
    requires !IsWordChar(c)
    ensures Tokens(a + [c] + b) == Tokens(a) + Tokens(b)
    decreases |a|
  {
    var s := a + [c] + b;
    if a == [] {
      assert s[1..] == b;
    } else if !IsWordChar(a[0]) {
      assert s[1..] == a[1..] + [c] + b;
      TokensSplit(a[1..], c, b);
    } else {
      var n := RunLength(a);
      RunLengthPrefix(a, [c] + b);
      assert s == a + ([c] + b);
      assert s[..n] == a[..n];
      assert s[n..] == a[n..] + [c] + b;
      TokensSplit(a[n..], c, b);
    }
  }

  /** A run that ends inside `a` ends at the same place in `a + rest` when the
      character after `a` is not a word character. */
  lemma {:induction false} RunLengthPrefix(a: string, rest: string)
    requires rest != [] && !IsWordChar(rest[0])
    ensures RunLength(a + rest) == RunLength(a)
    decreases |a|
  {
    if a == [] {
      assert (a + rest)[0] == rest[0];
    } else if IsWordChar(a[0]) {
      assert (a + rest)[1..] == a[1..] + rest;
      RunLengthPrefix(a[1..], rest);
    }
  }

  /** Lower-casing commutes with concatenation. */
  lemma LowerCaseAppend(a: string, b: string)
    ensures LowerCase(a + b) == LowerCase(a) + LowerCase(b)
  {
  }

  /** The two laws that pin the tokenizer down, stated on ExtractWords: a run
      of word characters gives its lower-cased self when long enough ... */
  lemma ExtractWordsOfRun(w: string)
    requires forall i | 0 <= i < |w| :: IsWordChar(w[i])
    ensures ExtractWords(w) == if |w| >= 2 then [LowerCase(w)] else []
  {
    TokensOfRun(LowerCase(w));
  }

  /** ... and a non-word character splits the text into independent halves. */
  lemma ExtractWordsSplit(a: string, c: char, b: string)
    requires !IsWordChar(c)
    ensures ExtractWords(a + [c] + b) == ExtractWords(a) + ExtractWords(b)
  {
    LowerCaseAppend(a + [c], b);
    LowerCaseAppend(a, [c]);
    assert LowerCase([c]) == [ToLower(c)];
    assert LowerCase(a + [c] + b) == LowerCase(a) + [ToLower(c)] + LowerCase(b);
    TokensSplit(LowerCase(a), ToLower(c), LowerCase(b));
  }

  // The steps below split the worked example into pieces small enough for
  // the verifier: each peels one word off the front of the sentence.

  lemma ExampleRun(w: string, lower: string)
    requires |w| >= 2 && forall i | 0 <= i < |w| :: IsWordChar(w[i])
    requires |lower| == |w| && forall i | 0 <= i < |w| :: lower[i] == ToLower(w[i])
    ensures ExtractWords(w) == [lower]
  {
    ExtractWordsOfRun(w);
    assert LowerCase(w) == lower;
  }

  lemma ExampleLast()
    ensures ExtractWords("Away!") == ["away"]
  {
    var text := "Away!";
    assert text == "Away" + ['!'] + "";
    ExtractWordsSplit("Away", '!', "");
    ExampleRun("Away", "away");
    assert ExtractWords("") == [];
  }

  lemma ExampleTail()
    ensures ExtractWords("s Away!") == ["away"]
  {
    var text, rest := "s Away!", "Away!";
    assert text == "s" + [' '] + rest;
    ExtractWordsSplit("s", ' ', rest);
    ExampleLast();
    ExtractWordsOfRun("s");
  }

  lemma ExampleMiddle()
    ensures ExtractWords("Cat's Away!") == ["cat", "away"]
  {
    var text, rest := "Cat's Away!", "s Away!";
    assert text == "Cat" + ['\''] + rest;
    ExtractWordsSplit("Cat", '\'', rest);
    ExampleTail();
    ExampleRun("Cat", "cat");
  }

  /** The apostrophe splits "Cat's"; the one-letter "s" is dropped. */
  lemma ExtractWordsExample()
    ensures ExtractWords("The Cat's Away!") == ["the", "cat", "away"]
  {
    var text, rest := "The Cat's Away!", "Cat's Away!";
    assert text == "The" + [' '] + rest;
    ExtractWordsSplit("The", ' ', rest);
    ExampleMiddle();
    ExampleRun("The", "the");
  }
}
