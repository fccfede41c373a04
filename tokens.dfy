/** The tokens of `tokenize.h` and the specification of `tokenize`: the token sequence it
    writes for a NUL-terminated text, and whether it succeeds. A token's `loc` is the index
    of its first byte in the text. */
module Tokens {
  import opened Defines
  import opened StandardFunctions

  datatype TokenKind = Eof | Punct | Identifier | Keyword | Num

  datatype Token = Token(kind: TokenKind, val: int, loc: nat, len: nat)

  /** A token slot after the array is zeroed: kind `TK_EOF`, everything else 0. */
  const ZeroToken: Token := Token(Eof, 0, 0, 0)

  /** A token's span lies in `s`, holds no NUL, and its first byte can be read. */
  predicate Fits(s: seq<char>, t: Token) {
    t.loc < |s| && t.loc + t.len <= |s| && forall k :: t.loc <= k < t.loc + t.len ==> s[k] != '\0'
  }

  /** One of the two-byte operators starts at `p`; the lexer tries them first. */
  predicate IsTwoCharOp(s: seq<char>, p: nat) {
    Prefix(s, p, "==") || Prefix(s, p, "!=") || Prefix(s, p, "<=") || Prefix(s, p, ">=")
  }

  /** The length of the punctuator at `p`, 0 when there is none (`read_punct`). */
  function PunctLen(s: seq<char>, p: nat): (n: nat)
    requires p < |s|
    ensures n <= 2 && p + n <= |s|
    ensures n == 2 <==> IsTwoCharOp(s, p)
    ensures n == 1 <==> !IsTwoCharOp(s, p) && IsPunct(s[p])
  {
    if IsTwoCharOp(s, p) then 2 else if IsPunct(s[p]) then 1 else 0
  }

  /** A NUL that lies ahead of `i` lies ahead of every later `j` that passes no NUL. */
  lemma NulAhead(s: seq<char>, i: nat, j: nat)
    requires i <= j <= |s| && '\0' in s[i..]
    requires forall k :: i <= k < j ==> s[k] != '\0'
    ensures '\0' in s[j..]
  {
    var z :| i <= z < |s| && s[z] == '\0';
    assert z >= j;
    assert s[j..][z - j] == '\0';
  }

  /** The punctuator at `p` holds no NUL. */
  lemma PunctNotNul(s: seq<char>, p: nat)
    requires p < |s|
    ensures forall k :: p <= k < p + PunctLen(s, p) ==> s[k] != '\0'
  {
    if IsTwoCharOp(s, p) {
      assert s[p..p + 2][0] == s[p] && s[p..p + 2][1] == s[p + 1];
    }
  }

  datatype Lexed = Lexed(toks: seq<Token>, ok: bool)

  /** What `tokenize` writes for the text from index `i` on: one token per digit run and per
      punctuator, whitespace skipped, an EOF token at the NUL; at the first other byte it
      stops, unsuccessfully, with the tokens written so far. */
  function Scan(s: seq<char>, i: nat): (r: Lexed)
    requires i <= |s| && '\0' in s[i..]
    decreases |s| - i, 1
  {
    if s[i] == '\0' then Lexed([Token(Eof, 0, i, 0)], true)
    else if IsWhitespace(s[i]) then
      NulAhead(s, i, i + 1);
      Scan(s, i + 1)
    else ScanToken(s, i)
  }

  /** The number or punctuator at `i`, then the rest of the text. */
  function ScanToken(s: seq<char>, i: nat): (r: Lexed)
    requires i < |s| && '\0' in s[i..] && s[i] != '\0'
    decreases |s| - i, 0
  {
    if IsDigit(s[i]) then
      var j := DigitsEnd(s, i);
      NulAhead(s, i, j);
      var rest := Scan(s, j);
      Lexed([NumberToken(s, i)] + rest.toks, rest.ok)
    else if PunctLen(s, i) > 0 then
      var n := PunctLen(s, i);
      PunctNotNul(s, i);
      NulAhead(s, i, i + n);
      var rest := Scan(s, i + n);
      Lexed([Token(Punct, 0, i, n)] + rest.toks, rest.ok)
    else Lexed([], false)
  }

  /** The token `tokenize` writes for the digit run at `i`. */
  function NumberToken(s: seq<char>, i: nat): Token
    requires i <= |s|
  {
    Token(Num, DecimalValue(s[i..DigitsEnd(s, i)]) % TWO32, i, DigitsEnd(s, i) - i)
  }

  // One step of Scan per kind of byte, for the loop of `tokenize`.

  lemma ScanSpace(s: seq<char>, i: nat)
    requires i < |s| && '\0' in s[i..] && IsWhitespace(s[i])
    ensures '\0' in s[i + 1..] && Scan(s, i) == Scan(s, i + 1)
  {
    NulAhead(s, i, i + 1);
  }

  lemma ScanNumber(s: seq<char>, i: nat)
    requires i < |s| && '\0' in s[i..] && IsDigit(s[i])
    ensures '\0' in s[DigitsEnd(s, i)..]
    ensures Scan(s, i).toks == [NumberToken(s, i)] + Scan(s, DigitsEnd(s, i)).toks
    ensures Scan(s, i).ok == Scan(s, DigitsEnd(s, i)).ok
  {
    NulAhead(s, i, DigitsEnd(s, i));
    var r := Scan(s, i);
    assert r == ScanToken(s, i);
    assert |r.toks| >= 1 && r.toks[0] == NumberToken(s, i);
    assert r.toks[1..] == Scan(s, DigitsEnd(s, i)).toks;
    assert r.toks == [r.toks[0]] + r.toks[1..];
  }

  lemma ScanPunct(s: seq<char>, i: nat)
    requires i < |s| && '\0' in s[i..] && s[i] != '\0' && !IsWhitespace(s[i]) && !IsDigit(s[i])
    requires PunctLen(s, i) > 0
    ensures '\0' in s[i + PunctLen(s, i)..]
    ensures Scan(s, i).toks == [Token(Punct, 0, i, PunctLen(s, i))] + Scan(s, i + PunctLen(s, i)).toks
    ensures Scan(s, i).ok == Scan(s, i + PunctLen(s, i)).ok
  {
    PunctNotNul(s, i);
    NulAhead(s, i, i + PunctLen(s, i));
    var r := Scan(s, i);
    assert r == ScanToken(s, i);
    assert |r.toks| >= 1 && r.toks[0] == Token(Punct, 0, i, PunctLen(s, i));
    assert r.toks[1..] == Scan(s, i + PunctLen(s, i)).toks;
    assert r.toks == [r.toks[0]] + r.toks[1..];
  }

  lemma ScanEnd(s: seq<char>, i: nat)
    requires i < |s| && s[i] == '\0'
    ensures Scan(s, i) == Lexed([Token(Eof, 0, i, 0)], true)
  {
    assert s[i..][0] == '\0';
  }

  lemma ScanStuck(s: seq<char>, i: nat)
    requires i < |s| && '\0' in s[i..] && s[i] != '\0' && !IsWhitespace(s[i]) && !IsDigit(s[i])
    requires PunctLen(s, i) == 0
    ensures Scan(s, i) == Lexed([], false)
  {
    assert Scan(s, i) == ScanToken(s, i);
  }

  /** At `i` starts a token: a digit run or a punctuator. */
  predicate StartsToken(s: seq<char>, i: nat)
    requires i < |s|
  {
    s[i] != '\0' && !IsWhitespace(s[i]) && (IsDigit(s[i]) || PunctLen(s, i) > 0)
  }

  /** The token that starts at `i`. */
  function HeadToken(s: seq<char>, i: nat): Token
    requires i < |s| && StartsToken(s, i)
  {
    if IsDigit(s[i]) then NumberToken(s, i) else Token(Punct, 0, i, PunctLen(s, i))
  }

  /** Where the token that starts at `i` ends. */
  function NextIndex(s: seq<char>, i: nat): (j: nat)
    requires i < |s| && StartsToken(s, i)
    ensures i < j <= |s|
  {
    if IsDigit(s[i]) then DigitsEnd(s, i) else i + PunctLen(s, i)
  }

  /** Scan at the start of a token: that token, then the scan of the rest. */
  lemma ScanCons(s: seq<char>, i: nat)
    requires i < |s| && '\0' in s[i..] && StartsToken(s, i)
    ensures forall k :: i <= k < NextIndex(s, i) ==> s[k] != '\0'
    ensures '\0' in s[NextIndex(s, i)..]
    ensures HeadToken(s, i).loc == i && End(HeadToken(s, i)) == NextIndex(s, i)
    ensures Scan(s, i).toks == [HeadToken(s, i)] + Scan(s, NextIndex(s, i)).toks
    ensures Scan(s, i).ok == Scan(s, NextIndex(s, i)).ok
  {
    if IsDigit(s[i]) {
      ScanNumber(s, i);
    } else {
      PunctNotNul(s, i);
      ScanPunct(s, i);
    }
  }

  /** Where a token ends. */
  function End(t: Token): nat { t.loc + t.len }

  /** Every token `tokenize` writes fits the text. */
  lemma {:induction false} ScanFits(s: seq<char>, i: nat)
    requires i <= |s| && '\0' in s[i..]
    ensures forall k :: 0 <= k < |Scan(s, i).toks| ==> Fits(s, Scan(s, i).toks[k])
    decreases |s| - i
  {
    if s[i] == '\0' {
      ScanEnd(s, i);
    } else if IsWhitespace(s[i]) {
      ScanSpace(s, i);
      ScanFits(s, i + 1);
    } else if StartsToken(s, i) {
      ScanCons(s, i);
      ScanFits(s, NextIndex(s, i));
      assert Fits(s, HeadToken(s, i)) by {
        var z :| i <= z < |s| && s[z] == '\0';
      }
    } else {
      ScanStuck(s, i);
    }
  }
}
