/**
 * Splitting a command line into words, as `while (iss >> w) tok.push_back(w);`
 * does on an `std::istringstream` in the C locale: runs of whitespace separate
 * words, there is no quoting and no escaping.
 */
module Tokenizer {
  import opened Text

  /** Length of the longest whitespace-free prefix of `s`. */
  function WordLen(s: string): (n: nat)
    ensures n <= |s|
    ensures forall k :: 0 <= k < n ==> !IsSpace(s[k])
    ensures n == |s| || IsSpace(s[n])
  {
    if s == [] || IsSpace(s[0]) then 0 else 1 + WordLen(s[1..])
  }

  /** The words of `s`, left to right. Every one of them is a word. */
  function Tokens(s: string): (ts: seq<string>)
    ensures forall i :: 0 <= i < |ts| ==> IsWord(ts[i])
    decreases |s|
  {
    if s == [] then []
    else if IsSpace(s[0]) then Tokens(s[1..])
    else var n := WordLen(s); [s[..n]] + Tokens(s[n..])
  }

  /** The characters of the tokens, in order. */
  function Concat(ts: seq<string>): string {
    if ts == [] then [] else ts[0] + Concat(ts[1..])
  }

  /** The non-whitespace characters of `s`, in order. */
  function NonSpace(s: string): string {
    if s == [] then [] else (if IsSpace(s[0]) then [] else [s[0]]) + NonSpace(s[1..])
  }

  /** The words joined by single spaces: a line the tokenizer reads back. */
  function Unwords(ws: seq<string>): string {
    if ws == [] then [] else if |ws| == 1 then ws[0] else ws[0] + " " + Unwords(ws[1..])
  }

  /** Whitespace at position `i` is skipped: the tokens still to come are the same. */
  lemma TokensSkipSpace(line: string, i: nat, tok: seq<string>)
    requires i < |line| && IsSpace(line[i])
    requires tok + Tokens(line[i..]) == Tokens(line)
    ensures tok + Tokens(line[i + 1..]) == Tokens(line)
  {
    assert line[i..][1..] == line[i + 1..];
  }

  /** The word running from `i` to `j` is the next token. */
  lemma TokensTakeWord(line: string, i: nat, j: nat)
    requires i < j <= |line|
    requires forall k :: i <= k < j ==> !IsSpace(line[k])
    requires j == |line| || IsSpace(line[j])
    ensures Tokens(line[i..]) == [line[i..j]] + Tokens(line[j..])
  {
    var s := line[i..];
    assert WordLen(s) == j - i;
    assert s[..j - i] == line[i..j] && s[j - i..] == line[j..];
  }

  /** Moving the next token from the tokens still to come onto the tokens read. */
  lemma PushToken(tok: seq<string>, w: string, rest: seq<string>, all: seq<string>)
    requires tok + ([w] + rest) == all
    ensures (tok + [w]) + rest == all
  {
    assert tok + ([w] + rest) == (tok + [w]) + rest;
  }

  /** The inner loop of `operator>>`: the end of the word that starts at `i`. */
  method WordEnd(line: string, i: nat) returns (j: nat)
    requires i <= |line|
    ensures i <= j <= |line|
    ensures forall k :: i <= k < j ==> !IsSpace(line[k])
    ensures j == |line| || IsSpace(line[j])
  {
    j := i;
    while j < |line| && !IsSpace(line[j])
      invariant i <= j <= |line|
      invariant forall k :: i <= k < j ==> !IsSpace(line[k])
    {
      j := j + 1;
    }
  }

  /** `while (iss >> w) tok.push_back(w);` */
  method Tokenize(line: string) returns (tok: seq<string>)
    ensures tok == Tokens(line)
  {
    tok := [];
    var i := 0;
    while i < |line|
      invariant 0 <= i <= |line|
      invariant tok + Tokens(line[i..]) == Tokens(line)
    {
      if IsSpace(line[i]) {
        TokensSkipSpace(line, i, tok);
        i := i + 1;
      } else {
        var j := WordEnd(line, i);
        TokensTakeWord(line, i, j);
        PushToken(tok, line[i..j], Tokens(line[j..]), Tokens(line));
        tok := tok + [line[i..j]];
        i := j;
      }
    }
  }

  /** A line has no tokens exactly when it is all whitespace. */
  lemma {:induction false} TokensEmptyIff(s: string)
    ensures Tokens(s) == [] <==> forall k :: 0 <= k < |s| ==> IsSpace(s[k])
    decreases |s|
  {
    if s != [] && IsSpace(s[0]) {
      TokensEmptyIff(s[1..]);
      assert forall k :: 1 <= k < |s| ==> s[k] == s[1..][k - 1];
    }
  }

  lemma {:induction false} NonSpaceAppend(a: string, b: string)
    ensures NonSpace(a + b) == NonSpace(a) + NonSpace(b)
    decreases |a|
  {
    if a != [] {
      assert (a + b)[0] == a[0] && (a + b)[1..] == a[1..] + b;
      NonSpaceAppend(a[1..], b);
      var h := if IsSpace(a[0]) then [] else [a[0]];
      assert h + (NonSpace(a[1..]) + NonSpace(b)) == (h + NonSpace(a[1..])) + NonSpace(b);
    } else {
      assert a + b == b;
    }
  }

  lemma {:induction false} NonSpaceOfWord(w: string)
    requires forall k :: 0 <= k < |w| ==> !IsSpace(w[k])
    ensures NonSpace(w) == w
    decreases |w|
  {
    if w != [] {
      NonSpaceOfWord(w[1..]);
    }
  }

  /** Tokenizing keeps every non-whitespace character, in input order, and adds nothing. */
  lemma {:induction false} TokensKeepOrder(s: string)
    ensures Concat(Tokens(s)) == NonSpace(s)
    decreases |s|
  {
    if s == [] {
    } else if IsSpace(s[0]) {
      TokensKeepOrder(s[1..]);
    } else {
      var n := WordLen(s);
      TokensKeepOrder(s[n..]);
      assert s == s[..n] + s[n..];
      NonSpaceAppend(s[..n], s[n..]);
      NonSpaceOfWord(s[..n]);
      var ts := Tokens(s);
      assert ts[0] == s[..n] && ts[1..] == Tokens(s[n..]);
    }
  }

  lemma TokensOfWordThenRest(w: string, rest: string)
    requires IsWord(w)
    requires rest == [] || IsSpace(rest[0])
    ensures Tokens(w + rest) == [w] + Tokens(rest)
  {
    var s := w + rest;
    assert WordLen(s) == |w|;
    assert s[..|w|] == w && s[|w|..] == rest;
  }

  /** Round trip: joining words with single spaces and tokenizing gives the words back. */
  lemma {:induction false} TokensOfUnwords(ws: seq<string>)
    requires forall i :: 0 <= i < |ws| ==> IsWord(ws[i])
    ensures Tokens(Unwords(ws)) == ws
    decreases |ws|
  {
    if ws == [] {
    } else if |ws| == 1 {
      TokensOfWordThenRest(ws[0], []);
      assert ws[0] + [] == ws[0];
    } else {
      var rest := Unwords(ws[1..]);
      TokensOfUnwords(ws[1..]);
      assert ws[0] + " " + rest == ws[0] + (" " + rest);
      TokensOfWordThenRest(ws[0], " " + rest);
      assert (" " + rest)[1..] == rest;
    }
  }
}
