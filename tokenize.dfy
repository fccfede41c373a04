/** `tokenize.c`: the 512-slot token array `AllTokens`, the global cursor `_CurrentToken`
    into it (an index here), and the lexer that fills the array from a NUL-terminated text. */
module Tokenizer {
  import opened Defines
  import opened StandardFunctions
  import opened Tokens

  const Capacity: nat := 512

  /** `read_punct(p)`: 2 at a two-byte operator, 1 at any other punctuation byte, else 0. */
  method ReadPunct(s: seq<char>, p: nat) returns (n: nat)
    requires p < |s| && '\0' in s[p..]
    ensures n == PunctLen(s, p)
  {
    var b := StartsWith(s, p, "==");
    if !b {
      b := StartsWith(s, p, "!=");
    }
    if !b {
      b := StartsWith(s, p, "<=");
    }
    if !b {
      b := StartsWith(s, p, ">=");
    }
    if b {
      return 2;
    }
    n := if IsPunct(s[p]) then 1 else 0;
  }

  /** The loop of `tokenize` keeps its invariant across a number token. */
  lemma AdvanceNumber(p: seq<char>, i: nat, written: seq<Token>)
    requires i < |p| && '\0' in p[i..] && IsDigit(p[i])
    requires Scan(p, 0).toks == written + Scan(p, i).toks
    ensures '\0' in p[DigitsEnd(p, i)..]
    ensures Scan(p, 0).toks == (written + [NumberToken(p, i)]) + Scan(p, DigitsEnd(p, i)).toks
    ensures Scan(p, i).ok == Scan(p, DigitsEnd(p, i)).ok
  {
    ScanNumber(p, i);
  }

  /** The loop of `tokenize` keeps its invariant across a punctuator. */
  lemma AdvancePunct(p: seq<char>, i: nat, written: seq<Token>)
    requires i < |p| && '\0' in p[i..] && p[i] != '\0' && !IsWhitespace(p[i]) && !IsDigit(p[i])
    requires PunctLen(p, i) > 0
    requires Scan(p, 0).toks == written + Scan(p, i).toks
    ensures '\0' in p[i + PunctLen(p, i)..]
    ensures Scan(p, 0).toks == (written + [Token(Punct, 0, i, PunctLen(p, i))]) + Scan(p, i + PunctLen(p, i)).toks
    ensures Scan(p, i).ok == Scan(p, i + PunctLen(p, i)).ok
  {
    ScanPunct(p, i);
  }

  /** A digit run in a NUL-terminated text ends inside it. */
  lemma NulEndsRun(p: seq<char>, i: nat)
    requires i <= |p| && '\0' in p[i..]
    ensures RunEnds(p, i)
  {
    var z :| i <= z < |p| && p[z] == '\0';
  }

  /** The token array holding `written` in its first slots and zero tokens after them. */
  function Layout(written: seq<Token>): (a: seq<Token>)
    requires |written| <= Capacity
    ensures |a| == Capacity
  {
    written + seq(Capacity - |written|, _ => ZeroToken)
  }

  /** Writing token `t` into the first zero slot appends it to what is written. */
  lemma Append(written: seq<Token>, t: Token)
    requires |written| < Capacity
    ensures Layout(written)[|written|] == ZeroToken
    ensures Layout(written)[|written| := t] == Layout(written + [t])
  {
  }

  /** Every slot of the layout of tokens that fit the text fits it. */
  lemma LayoutFits(written: seq<Token>, p: seq<char>)
    requires |written| <= Capacity && |p| > 0
    requires forall k :: 0 <= k < |written| ==> Fits(p, written[k])
    ensures forall k :: 0 <= k < Capacity ==> Fits(p, Layout(written)[k])
  {
  }

  /** The array holding the scan of `p` has every slot fitting `p`. */
  lemma ScannedFit(p: seq<char>, written: seq<Token>, a: seq<Token>)
    requires '\0' in p && |written| <= Capacity
    requires written == Scan(p, 0).toks && a == Layout(written)
    ensures forall k :: 0 <= k < |a| ==> Fits(p, a[k])
  {
    ScanFits(p, 0);
    LayoutFits(written, p);
  }

  class Lexer {
    /** `AllTokens`. */
    const allTokens: array<Token>
    /** The slot `_CurrentToken` points at. */
    var current: nat
    /** The text the tokens point into. */
    var text: seq<char>

    /** The array has its 512 slots and every slot, written or not, fits the text. */
    ghost predicate Valid()
      reads this`text, allTokens
    {
      allTokens.Length == Capacity && forall k :: 0 <= k < Capacity ==> Fits(text, allTokens[k])
    }

    /** The token at slot `k`; a cursor past the array reads a zero token. */
    function Slot(k: nat): Token
      reads allTokens
    {
      if k < allTokens.Length then allTokens[k] else ZeroToken
    }

    /** The program's initial state: every slot zero, the cursor at slot 0. */
    constructor ()
      ensures Valid() && fresh(allTokens)
      ensures allTokens[..] == Layout([]) && current == 0 && text == "\0"
    {
      allTokens := new Token[Capacity](_ => ZeroToken);
      current := 0;
      text := "\0";
    }

    /** `CurrentToken()`: the slot under the cursor; the cursor does not move. */
    method CurrentToken() returns (t: nat)
      ensures t == current
    {
      t := current;
    }

    /** `NextToken()`: the cursor moves on by exactly one slot, which is returned. */
    method NextToken() returns (t: nat)
      modifies this`current
      ensures current == old(current) + 1 && t == current
    {
      current := current + 1;
      t := current;
    }

    /** `ResetCurrentToken()`: the cursor goes back to slot 0. */
    method ResetCurrentToken()
      modifies this`current
      ensures current == 0
    {
      current := 0;
    }

    /** `new_token(kind, start, end)`: fills in kind, location and length of the slot under
        the cursor (its value is left as it was) and moves the cursor on. */
    method NewToken(kind: TokenKind, start: nat, end: nat) returns (tok: nat)
      requires current < allTokens.Length && start <= end
      modifies this`current, allTokens
      ensures tok == old(current) && current == old(current) + 1
      ensures allTokens[..] ==
              old(allTokens[..])[tok := old(allTokens[tok]).(kind := kind, loc := start, len := end - start)]
    {
      tok := current;
      current := current + 1;
      allTokens[tok] := allTokens[tok].(kind := kind, loc := start, len := end - start);
    }

    /** The digit branch of `tokenize`: the slot under the cursor becomes the `TK_NUM` token
        of the digit run at `i` (its value read by `str_lu`, its length the number of digits
        read) and the index after the run is returned. */
    method LexNumber(p: seq<char>, i: nat) returns (j: nat)
      requires i < |p| && '\0' in p[i..] && IsDigit(p[i])
      requires current < allTokens.Length && allTokens[current] == ZeroToken
      modifies this`current, allTokens
      ensures j == DigitsEnd(p, i) && current == old(current) + 1
      ensures allTokens[..] == old(allTokens[..])[old(current) := NumberToken(p, i)]
    {
      var tok := NewToken(Num, i, i);
      var q := i;
      NulEndsRun(p, i);
      var v;
      v, j := StrLu(p, i, i);
      allTokens[tok] := allTokens[tok].(val := v);
      allTokens[tok] := allTokens[tok].(len := j - q);
    }

    /** `memset(AllTokens, 0, sizeof(AllTokens))`: every slot becomes the zero token. */
    method ClearTokens()
      requires allTokens.Length == Capacity
      modifies allTokens
      ensures allTokens[..] == Layout([])
    {
      forall k | 0 <= k < allTokens.Length {
        allTokens[k] := ZeroToken;
      }
      assert allTokens[..] == Layout([]);
    }

    /** The punctuator branch of `tokenize`: the slot under the cursor becomes the
        `TK_PUNCT` token of the `n` bytes at `i`, and the index after them is returned. */
    method LexPunct(i: nat, n: nat) returns (j: nat)
      requires current < allTokens.Length && allTokens[current] == ZeroToken
      modifies this`current, allTokens
      ensures j == i + n && current == old(current) + 1
      ensures allTokens[..] == old(allTokens[..])[old(current) := Token(Punct, 0, i, n)]
    {
      var tok := NewToken(Punct, i, i + n);
      j := i + n;
    }

    /** One round of the loop of `tokenize` at a byte that is not the terminator: whitespace
        is skipped, a digit run or a punctuator becomes the next token, and any other byte
        stops the scan (`stuck`, the `error_at` branch). The scan still to do shrinks by what
        the round wrote. */
    method LexRound(p: seq<char>, i: nat, ghost written: seq<Token>)
        returns (j: nat, stuck: bool, ghost written': seq<Token>)
      requires i < |p| && '\0' in p[i..] && p[i] != '\0' && text == p
      requires current == |written| && current + |Scan(p, i).toks| <= Capacity
      requires Scan(p, 0).ok == Scan(p, i).ok
      requires Scan(p, 0).toks == written + Scan(p, i).toks
      requires allTokens[..] == Layout(written)
      modifies this`current, allTokens
      ensures stuck <==> !IsWhitespace(p[i]) && !IsDigit(p[i]) && PunctLen(p, i) == 0
      ensures stuck ==> written' == written == Scan(p, 0).toks && !Scan(p, 0).ok
      ensures stuck ==> current == |written| && allTokens[..] == Layout(written)
      ensures !stuck ==> i < j < |p| && '\0' in p[j..]
      ensures !stuck ==> current == |written'| && current + |Scan(p, j).toks| <= Capacity
      ensures !stuck ==> Scan(p, 0).ok == Scan(p, j).ok
      ensures !stuck ==> Scan(p, 0).toks == written' + Scan(p, j).toks
      ensures !stuck ==> allTokens[..] == Layout(written')
    {
      written' := written;
      stuck := false;
      if IsWhitespace(p[i]) {
        ScanSpace(p, i);
        j := i + 1;
      } else if IsDigit(p[i]) {
        ghost var t := NumberToken(p, i);
        AdvanceNumber(p, i, written);
        Append(written, t);
        j := LexNumber(p, i);
        written' := written + [t];
      } else {
        var n := ReadPunct(p, i);
        if n == 0 {
          ScanStuck(p, i);
          return i, true, written;
        }
        ghost var t := Token(Punct, 0, i, n);
        AdvancePunct(p, i, written);
        Append(written, t);
        j := LexPunct(i, n);
        written' := written + [t];
      }
    }

    /** `tokenize(p)`: zeroes the array and writes `Scan(p, 0)` into its first slots,
        leaving the cursor after the last token written; true (the array) on success, false
        (the null pointer) when a byte that starts no token stopped it. */
    method Tokenize(p: seq<char>) returns (ok: bool)
      requires '\0' in p
      requires allTokens.Length == Capacity
      requires |Scan(p, 0).toks| <= Capacity
      modifies this, allTokens
      ensures Valid() && text == p
      ensures ok == Scan(p, 0).ok && current == |Scan(p, 0).toks|
      ensures allTokens[..] == Layout(Scan(p, 0).toks)
    {
      ClearTokens();
      ResetCurrentToken();
      text := p;
      var i: nat := 0;
      ghost var written: seq<Token> := [];
      assert p[i..] == p;
      while p[i] != '\0'
        invariant i < |p| && '\0' in p[i..] && text == p
        invariant current == |written| && current + |Scan(p, i).toks| <= Capacity
        invariant Scan(p, 0).ok == Scan(p, i).ok
        invariant Scan(p, 0).toks == written + Scan(p, i).toks
        invariant allTokens[..] == Layout(written)
        decreases |p| - i
      {
        var stuck;
        i, stuck, written := LexRound(p, i, written);
        if stuck {
          ok := false;
          ScannedFit(p, written, allTokens[..]);
          return;
        }
      }
      ScanEnd(p, i);
      ghost var t := Token(Eof, 0, i, 0);
      Append(written, t);
      var tok := NewToken(Eof, i, i);
      written := written + [t];
      ok := true;
      ScannedFit(p, written, allTokens[..]);
    }
  }
}
