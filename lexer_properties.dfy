/** What `tokenize` promises about the tokens it writes, stated about `Scan`, its
    specification: when it succeeds, which bytes make it fail, how the tokens tile the
    text, and what each kind of token holds. */
module LexerProperties {
  import opened Defines
  import opened StandardFunctions
  import opened Tokens

  /** The byte at `k` can be part of a token: whitespace, a digit, punctuation, or the `!` of
      a `!=`. */
  predicate Allowed(s: seq<char>, k: nat)
    requires k < |s|
  {
    IsWhitespace(s[k]) || IsDigit(s[k]) || IsPunct(s[k]) || (s[k] == '!' && k + 1 < |s| && s[k + 1] == '=')
  }

  /** The tokens follow each other from index `i` on, each starting after the previous one
      ends, with only whitespace before each of them. */
  predicate Tiles(s: seq<char>, i: nat, toks: seq<Token>)
    decreases |toks|
  {
    toks == [] ||
    (i <= toks[0].loc && End(toks[0]) <= |s| &&
     (forall m :: i <= m < toks[0].loc ==> IsWhitespace(s[m])) &&
     Tiles(s, End(toks[0]), toks[1..]))
  }

  /** What a token written by `tokenize` holds, by kind. A number: a maximal non-empty run of
      digits and its value modulo 2^32. A punctuator: one or two bytes, the longest
      punctuator at its start. The EOF token: empty, at the terminating NUL. */
  predicate WellFormed(s: seq<char>, t: Token) {
    End(t) <= |s| &&
    match t.kind
      case Num =>
        t.len >= 1 && End(t) < |s| && !IsDigit(s[End(t)]) &&
        (forall m :: t.loc <= m < End(t) ==> IsDigit(s[m])) &&
        t.val == DecimalValue(s[t.loc..End(t)]) % TWO32
      case Punct => t.loc < |s| && t.len == PunctLen(s, t.loc) && t.len > 0 && t.val == 0
      case Eof => t.loc < |s| && s[t.loc] == '\0' && t.len == 0 && t.val == 0
      case _ => false
  }

  /** The NUL ahead of `i` is the NUL ahead of any later `j` short of it. */
  lemma NulIndexFrom(s: seq<char>, i: nat, j: nat)
    requires i <= j <= |s| && '\0' in s[i..]
    requires forall k :: i <= k < j ==> s[k] != '\0'
    ensures '\0' in s[j..] && NulIndex(s, j) == NulIndex(s, i)
    decreases j - i
  {
    NulAhead(s, i, j);
    if i < j {
      NulAhead(s, i, i + 1);
      NulIndexFrom(s, i + 1, j);
    }
  }

  /** Every byte of a token is allowed. */
  lemma HeadAllowed(s: seq<char>, i: nat)
    requires i < |s| && StartsToken(s, i)
    ensures forall k :: i <= k < NextIndex(s, i) ==> Allowed(s, k)
  {
    if !IsDigit(s[i]) && PunctLen(s, i) == 2 {
      assert s[i..i + 2][0] == s[i] && s[i..i + 2][1] == s[i + 1];
    }
  }

  /** A byte that starts no token, and is neither whitespace nor the terminator, is not
      allowed. */
  lemma StuckNotAllowed(s: seq<char>, i: nat)
    requires i < |s| && s[i] != '\0' && !IsWhitespace(s[i]) && !StartsToken(s, i)
    ensures !Allowed(s, i)
  {
  }

  /** `tokenize` succeeds exactly when every byte before the terminator is allowed; so a
      letter, a lone `!` or any other byte makes it fail. */
  lemma {:induction false} ScanOkIff(s: seq<char>, i: nat)
    requires i <= |s| && '\0' in s[i..]
    ensures Scan(s, i).ok <==> forall k :: i <= k < NulIndex(s, i) ==> Allowed(s, k)
    decreases |s| - i
  {
    if s[i] == '\0' {
      ScanEnd(s, i);
    } else if IsWhitespace(s[i]) {
      ScanSpace(s, i);
      NulIndexFrom(s, i, i + 1);
      ScanOkIff(s, i + 1);
    } else if StartsToken(s, i) {
      var j := NextIndex(s, i);
      ScanCons(s, i);
      NulIndexFrom(s, i, j);
      ScanOkIff(s, j);
      HeadAllowed(s, i);
    } else {
      ScanStuck(s, i);
      StuckNotAllowed(s, i);
    }
  }

  /** A successful `tokenize` ends with exactly one EOF token, empty, at the terminator; an
      unsuccessful one writes no EOF token at all. */
  lemma {:induction false} ScanEof(s: seq<char>, i: nat)
    requires i <= |s| && '\0' in s[i..]
    ensures var r := Scan(s, i);
            r.ok ==> |r.toks| >= 1 && r.toks[|r.toks| - 1] == Token(Eof, 0, NulIndex(s, i), 0)
    ensures var r := Scan(s, i);
            forall k :: 0 <= k < |r.toks| ==> (r.toks[k].kind == Eof <==> r.ok && k == |r.toks| - 1)
    decreases |s| - i
  {
    if s[i] == '\0' {
      ScanEnd(s, i);
    } else if IsWhitespace(s[i]) {
      ScanSpace(s, i);
      NulIndexFrom(s, i, i + 1);
      ScanEof(s, i + 1);
    } else if StartsToken(s, i) {
      var j := NextIndex(s, i);
      ScanCons(s, i);
      NulIndexFrom(s, i, j);
      ScanEof(s, j);
      ConsEof(HeadToken(s, i), Scan(s, j).toks, Scan(s, j).ok);
    } else {
      ScanStuck(s, i);
    }
  }

  /** A number or punctuator in front of a token sequence with one EOF token, last exactly
      when `ok`, keeps that shape. */
  lemma ConsEof(t: Token, rest: seq<Token>, ok: bool)
    requires t.kind != Eof && (ok ==> |rest| >= 1)
    requires forall k :: 0 <= k < |rest| ==> (rest[k].kind == Eof <==> ok && k == |rest| - 1)
    ensures var ts := [t] + rest;
            forall k :: 0 <= k < |ts| ==> (ts[k].kind == Eof <==> ok && k == |ts| - 1)
    ensures |rest| >= 1 ==> ([t] + rest)[|rest|] == rest[|rest| - 1]
  {
    var ts := [t] + rest;
    forall k | 0 <= k < |ts|
      ensures ts[k].kind == Eof <==> ok && k == |ts| - 1
    {
      if k > 0 {
        assert ts[k] == rest[k - 1];
      }
    }
  }

  /** The tokens tile the text: in source order, not overlapping, whitespace between them. */
  lemma {:induction false} ScanTiles(s: seq<char>, i: nat)
    requires i <= |s| && '\0' in s[i..]
    ensures Tiles(s, i, Scan(s, i).toks)
    decreases |s| - i
  {
    if s[i] == '\0' {
      ScanEnd(s, i);
      assert Scan(s, i).toks[1..] == [];
    } else if IsWhitespace(s[i]) {
      ScanSpace(s, i);
      ScanTiles(s, i + 1);
      TilesFromEarlier(s, i, Scan(s, i + 1).toks);
    } else if StartsToken(s, i) {
      var j := NextIndex(s, i);
      ScanCons(s, i);
      ScanTiles(s, j);
      assert Scan(s, i).toks[1..] == Scan(s, j).toks;
    } else {
      ScanStuck(s, i);
    }
  }

  /** Whitespace at `i` may be put in front of a tiling from `i + 1`. */
  lemma TilesFromEarlier(s: seq<char>, i: nat, toks: seq<Token>)
    requires i < |s| && IsWhitespace(s[i]) && Tiles(s, i + 1, toks)
    ensures Tiles(s, i, toks)
  {
  }

  /** In a tiling, each token ends before the next one starts. */
  lemma {:induction false} TilesOrdered(s: seq<char>, i: nat, toks: seq<Token>)
    requires Tiles(s, i, toks)
    ensures forall k :: 0 <= k < |toks| ==> i <= toks[k].loc && End(toks[k]) <= |s|
    ensures forall k :: 0 <= k < |toks| - 1 ==> End(toks[k]) <= toks[k + 1].loc
    decreases |toks|
  {
    if toks != [] {
      TilesOrdered(s, End(toks[0]), toks[1..]);
      assert forall k :: 1 <= k < |toks| ==> toks[k] == toks[1..][k - 1];
    }
  }

  /** The token at the start of a token is well formed. */
  lemma HeadWellFormed(s: seq<char>, i: nat)
    requires i < |s| && '\0' in s[i..] && StartsToken(s, i)
    ensures WellFormed(s, HeadToken(s, i))
  {
    if IsDigit(s[i]) {
      var z :| i <= z < |s| && s[z] == '\0';
      assert z >= DigitsEnd(s, i);
    }
  }

  /** Every token `tokenize` writes is well formed for its kind. */
  lemma {:induction false} ScanWellFormed(s: seq<char>, i: nat)
    requires i <= |s| && '\0' in s[i..]
    ensures forall k :: 0 <= k < |Scan(s, i).toks| ==> WellFormed(s, Scan(s, i).toks[k])
    decreases |s| - i
  {
    if s[i] == '\0' {
      ScanEnd(s, i);
    } else if IsWhitespace(s[i]) {
      ScanSpace(s, i);
      ScanWellFormed(s, i + 1);
    } else if StartsToken(s, i) {
      var j := NextIndex(s, i);
      ScanCons(s, i);
      ScanWellFormed(s, j);
      HeadWellFormed(s, i);
      ConsWellFormed(s, HeadToken(s, i), Scan(s, j).toks);
    } else {
      ScanStuck(s, i);
    }
  }

  lemma ConsWellFormed(s: seq<char>, t: Token, rest: seq<Token>)
    requires WellFormed(s, t) && forall k :: 0 <= k < |rest| ==> WellFormed(s, rest[k])
    ensures forall k :: 0 <= k < |[t] + rest| ==> WellFormed(s, ([t] + rest)[k])
  {
    assert forall k :: 1 <= k < |[t] + rest| ==> ([t] + rest)[k] == rest[k - 1];
  }
}
