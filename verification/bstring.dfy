/** `bstring`: a (pointer, length) view into a byte buffer, and the
    whitespace trim, separator split, compare and search built on it. A
    view is modelled as a slice `BStr(start, len)` of one underlying text,
    because the assembler reads characters just outside a token (the sign
    before it, the first byte of an empty token). */
module BString {
  import opened Errors
  import opened Vector

  datatype BStr = BStr(start: nat, len: nat)

  predicate Within(text: string, b: BStr) {
    b.start + b.len <= |text|
  }

  function Value(text: string, b: BStr): string
    requires Within(text, b)
  {
    text[b.start..b.start + b.len]
  }

  /** Dereferencing `data + i` of the underlying buffer; outside it the C
      program reads memory it does not own. */
  function At(text: string, i: int): (r: Result<char>)
    ensures r.Ok? <==> 0 <= i < |text|
    ensures r.Ok? ==> r.value == text[i]
    ensures r.Err? ==> r.error == ReadOutOfBounds
  {
    if 0 <= i < |text| then Ok(text[i]) else Err(ReadOutOfBounds)
  }

  /** `is_whitespace`: only newline, space and tab. */
  predicate IsWhitespace(c: char) {
    c == '\n' || c == ' ' || c == '\t'
  }

  /** Position `i` exists and holds whitespace. */
  predicate WhiteAt(text: string, i: nat) {
    i < |text| && IsWhitespace(text[i])
  }

  /** Every position in from..to-1 holds whitespace. */
  predicate Blank(text: string, from: nat, to: nat) {
    forall i :: from <= i < to ==> WhiteAt(text, i)
  }

  /** The first loop of `bstring_trim`. */
  function TrimStart(text: string, b: BStr): (r: BStr)
    ensures b.start <= r.start && r.start + r.len == b.start + b.len
    ensures Blank(text, b.start, r.start)
    ensures r.len > 0 ==> !WhiteAt(text, r.start)
    decreases b.len
  {
    if b.len > 0 && WhiteAt(text, b.start) then TrimStart(text, BStr(b.start + 1, b.len - 1))
    else b
  }

  /** The second loop of `bstring_trim`. */
  function TrimEnd(text: string, b: BStr): (r: BStr)
    ensures r.start == b.start && r.len <= b.len
    ensures Blank(text, r.start + r.len, b.start + b.len)
    ensures r.len > 0 ==> !WhiteAt(text, r.start + r.len - 1)
    ensures b.len > 0 && !WhiteAt(text, b.start) ==> r.len > 0
    decreases b.len
  {
    if b.len > 0 && WhiteAt(text, b.start + b.len - 1) then TrimEnd(text, BStr(b.start, b.len - 1))
    else b
  }

  /** `bstring_trim`: the sub-range left after stripping whitespace from
      both ends. Everything stripped is whitespace and the result, unless
      empty, starts and ends with a non-whitespace character; an all-blank
      view collapses to the empty view at its end. */
  function Trim(text: string, b: BStr): (r: BStr)
    ensures b.start <= r.start && r.start + r.len <= b.start + b.len
    ensures Blank(text, b.start, r.start) && Blank(text, r.start + r.len, b.start + b.len)
    ensures r.len > 0 ==> !WhiteAt(text, r.start) && !WhiteAt(text, r.start + r.len - 1)
    ensures r.len == 0 ==> r.start == b.start + b.len
  {
    TrimEnd(text, TrimStart(text, b))
  }

  /** Trimming twice is trimming once. */
  lemma TrimIdempotent(text: string, b: BStr)
    ensures Trim(text, Trim(text, b)) == Trim(text, b)
  {
  }

  /** Position `i` of the view exists and holds one of `seps`. */
  predicate IsSeparatorAt(text: string, b: BStr, seps: string, i: nat) {
    b.start + i < |text| && text[b.start + i] in seps
  }

  /** Positions in `p` are below `len` and strictly increasing. */
  predicate Increasing(p: seq<nat>, len: nat) {
    && (forall k :: 0 <= k < |p| ==> p[k] < len)
    && (forall k, l :: 0 <= k < l < |p| ==> p[k] < p[l])
  }

  /** The positions below `n` (relative to the view) that hold a separator,
      in increasing order. */
  function Separators(text: string, b: BStr, seps: string, n: nat): (p: seq<nat>)
    requires n <= b.len
    ensures |p| <= n
  {
    if n == 0 then []
    else Separators(text, b, seps, n - 1) + (if IsSeparatorAt(text, b, seps, n - 1) then [n - 1] else [])
  }

  lemma {:induction false} SeparatorsIncreasing(text: string, b: BStr, seps: string, n: nat)
    requires n <= b.len
    ensures Increasing(Separators(text, b, seps, n), n)
  {
    if n > 0 {
      SeparatorsIncreasing(text, b, seps, n - 1);
    }
  }

  lemma {:induction false} SeparatorsPrefix(text: string, b: BStr, seps: string, i: nat, n: nat)
    requires i <= n <= b.len
    ensures |Separators(text, b, seps, i)| <= |Separators(text, b, seps, n)|
    ensures Separators(text, b, seps, n)[..|Separators(text, b, seps, i)|] == Separators(text, b, seps, i)
    decreases n - i
  {
    if i < n {
      SeparatorsPrefix(text, b, seps, i, n - 1);
    }
  }

  /** The `k`-th piece of a view of length `b.len` cut at positions `p`:
      from just after separator k-1 (or the start) up to separator k (or
      the end). */
  function Piece(b: BStr, p: seq<nat>, k: nat): (r: BStr)
    requires Increasing(p, b.len) && k <= |p|
    ensures b.start <= r.start && r.start + r.len <= b.start + b.len
  {
    var from := if k == 0 then 0 else p[k - 1] + 1;
    var to := if k < |p| then p[k] else b.len;
    BStr(b.start + from, to - from)
  }

  /** Every view in `r` is a sub-range of `b`. */
  predicate Inside(b: BStr, r: seq<BStr>) {
    forall k :: 0 <= k < |r| ==> b.start <= r[k].start && r[k].start + r[k].len <= b.start + b.len
  }

  /** The loop of `bstring_split` from position `i`, with the current token
      starting at `st`: the ranges it hands to `bstring_trim`, in order. */
  function Tokens(text: string, b: BStr, seps: string, i: nat, st: nat): (r: seq<BStr>)
    requires st <= i < b.len
    ensures |r| >= 1
    decreases b.len - i
  {
    if i == b.len - 1 then
      [BStr(b.start + st, i + 1 - st)]
    else if IsSeparatorAt(text, b, seps, i) then
      [BStr(b.start + st, i - st)] + Tokens(text, b, seps, i + 1, i + 1)
    else
      Tokens(text, b, seps, i + 1, st)
  }

  /** `bstring_trim` applied to each range. */
  function TrimAll(text: string, vs: seq<BStr>): (r: seq<BStr>)
    ensures |r| == |vs|
  {
    if |vs| == 0 then [] else [Trim(text, vs[0])] + TrimAll(text, vs[1..])
  }

  lemma {:induction false} TrimAllAt(text: string, vs: seq<BStr>, k: nat)
    requires k < |vs|
    ensures TrimAll(text, vs)[k] == Trim(text, vs[k])
  {
    if k > 0 {
      TrimAllAt(text, vs[1..], k - 1);
    }
  }

  /** `bstring_split`: the trimmed tokens, in order; every token is a
      sub-range of the view. */
  function Split(text: string, b: BStr, seps: string): (r: seq<BStr>)
    ensures |r| == 0 <==> b.len == 0
  {
    if b.len == 0 then [] else TrimAll(text, Tokens(text, b, seps, 0, 0))
  }

  /** The tokens of `Split`, characterised without the loop: with `p` the
      separator positions among all but the last position, token `k` is the
      trim of the range between separator k-1 and separator k. Interior
      tokens exclude their separator; the final token runs to the end of
      the view, so a separator in the last position stays in it. An empty
      view yields no tokens, any other view 1 + |p|. */
  lemma SplitPieces(text: string, b: BStr, seps: string)
    ensures b.len == 0 ==> Split(text, b, seps) == []
    ensures b.len > 0 ==>
      var p := Separators(text, b, seps, b.len - 1);
      && Increasing(p, b.len)
      && |Split(text, b, seps)| == |p| + 1
      && forall k :: 0 <= k <= |p| ==> Split(text, b, seps)[k] == Trim(text, Piece(b, p, k))
  {
    if b.len > 0 {
      SeparatorsIncreasing(text, b, seps, b.len - 1);
      TokensArePieces(text, b, seps, 0, 0);
      forall k | 0 <= k < |Split(text, b, seps)| {
        TrimAllAt(text, Tokens(text, b, seps, 0, 0), k);
      }
    }
  }

  /** Every token of `Split` is a sub-range of the view. */
  lemma SplitInside(text: string, b: BStr, seps: string)
    ensures Inside(b, Split(text, b, seps))
  {
    SplitPieces(text, b, seps);
  }

  /** Every view in `vs` lies inside `text`. */
  predicate AllWithin(text: string, vs: seq<BStr>) {
    forall k :: 0 <= k < |vs| ==> Within(text, vs[k])
  }

  /** The tokens of a view inside the text lie inside the text. */
  lemma SplitWithin(text: string, b: BStr, seps: string)
    requires Within(text, b)
    ensures AllWithin(text, Split(text, b, seps))
  {
    SplitInside(text, b, seps);
  }

  /** `r` lists the pieces of `b` cut at `p`, from piece `c` on. */
  predicate PiecesFrom(b: BStr, p: seq<nat>, c: nat, r: seq<BStr>)
    requires Increasing(p, b.len) && c <= |p|
  {
    && |r| == |p| + 1 - c
    && forall j :: 0 <= j < |r| ==> r[j] == Piece(b, p, c + j)
  }

  /** Scanning position `i`, the current token starts at `st`, which is
      where the piece after the cuts seen so far starts. */
  predicate AtPiece(text: string, b: BStr, seps: string, i: nat, st: nat) {
    && st <= i < b.len
    && var p := Separators(text, b, seps, b.len - 1);
       var c := |Separators(text, b, seps, i)|;
       Increasing(p, b.len) && c <= |p| && st == Piece(b, p, c).start - b.start
  }

  /** The tokens from position `i` on are the pieces after the cuts seen
      so far. */
  predicate PiecesAhead(text: string, b: BStr, seps: string, i: nat, st: nat)
    requires AtPiece(text, b, seps, i, st)
  {
    var p := Separators(text, b, seps, b.len - 1);
    PiecesFrom(b, p, |Separators(text, b, seps, i)|, Tokens(text, b, seps, i, st))
  }

  lemma {:induction false} TokensArePieces(text: string, b: BStr, seps: string, i: nat, st: nat)
    requires AtPiece(text, b, seps, i, st)
    ensures PiecesAhead(text, b, seps, i, st)
    decreases b.len - i
  {
    if i == b.len - 1 {
      LastStep(text, b, seps, st);
    } else if IsSeparatorAt(text, b, seps, i) {
      SeparatorStep(text, b, seps, i, st);
      TokensArePieces(text, b, seps, i + 1, i + 1);
    } else {
      SkipStep(text, b, seps, i, st);
      TokensArePieces(text, b, seps, i + 1, st);
    }
  }

  lemma LastStep(text: string, b: BStr, seps: string, st: nat)
    requires b.len > 0 && AtPiece(text, b, seps, b.len - 1, st)
    ensures PiecesAhead(text, b, seps, b.len - 1, st)
  {
    TokensLast(text, b, seps, st, Separators(text, b, seps, b.len - 1));
  }

  lemma SeparatorStep(text: string, b: BStr, seps: string, i: nat, st: nat)
    requires AtPiece(text, b, seps, i, st) && i < b.len - 1 && IsSeparatorAt(text, b, seps, i)
    ensures AtPiece(text, b, seps, i + 1, i + 1)
    ensures PiecesAhead(text, b, seps, i + 1, i + 1) ==> PiecesAhead(text, b, seps, i, st)
  {
    SeparatorCounted(text, b, seps, i);
    if PiecesAhead(text, b, seps, i + 1, i + 1) {
      var p := Separators(text, b, seps, b.len - 1);
      TokensAfterSeparator(text, b, seps, i, st, p, |Separators(text, b, seps, i)|);
    }
  }

  lemma SkipStep(text: string, b: BStr, seps: string, i: nat, st: nat)
    requires AtPiece(text, b, seps, i, st) && i < b.len - 1 && !IsSeparatorAt(text, b, seps, i)
    ensures AtPiece(text, b, seps, i + 1, st)
    ensures PiecesAhead(text, b, seps, i + 1, st) ==> PiecesAhead(text, b, seps, i, st)
  {
    TokensSkip(text, b, seps, i, st);
  }

  /** At the last position the current token runs to the end of the view. */
  lemma TokensLast(text: string, b: BStr, seps: string, st: nat, p: seq<nat>)
    requires st < b.len
    requires p == Separators(text, b, seps, b.len - 1) && Increasing(p, b.len)
    requires st == Piece(b, p, |p|).start - b.start
    ensures PiecesFrom(b, p, |p|, Tokens(text, b, seps, b.len - 1, st))
  {
  }

  /** A non-separator before the last position neither adds a cut nor ends
      the current token. */
  lemma TokensSkip(text: string, b: BStr, seps: string, i: nat, st: nat)
    requires st <= i < b.len - 1 && !IsSeparatorAt(text, b, seps, i)
    ensures Separators(text, b, seps, i + 1) == Separators(text, b, seps, i)
    ensures Tokens(text, b, seps, i, st) == Tokens(text, b, seps, i + 1, st)
  {
  }

  /** A separator at `i` before the last position is the next cut, and the
      count of cuts steps past it. */
  lemma SeparatorCounted(text: string, b: BStr, seps: string, i: nat)
    requires i < b.len - 1 && IsSeparatorAt(text, b, seps, i)
    ensures var p := Separators(text, b, seps, b.len - 1);
            var c := |Separators(text, b, seps, i)|;
            && c < |p| && p[c] == i
            && |Separators(text, b, seps, i + 1)| == c + 1
  {
    SeparatorsPrefix(text, b, seps, i + 1, b.len - 1);
    var next := Separators(text, b, seps, i + 1);
    assert next == Separators(text, b, seps, i) + [i];
    var p := Separators(text, b, seps, b.len - 1);
    assert p[..|next|] == next;
  }

  lemma TokensAfterSeparator(text: string, b: BStr, seps: string, i: nat, st: nat, p: seq<nat>, c: nat)
    requires st <= i < b.len - 1 && IsSeparatorAt(text, b, seps, i)
    requires Increasing(p, b.len) && c < |p| && p[c] == i
    requires st == Piece(b, p, c).start - b.start
    requires PiecesFrom(b, p, c + 1, Tokens(text, b, seps, i + 1, i + 1))
    ensures PiecesFrom(b, p, c, Tokens(text, b, seps, i, st))
  {
    var r := Tokens(text, b, seps, i, st);
    var rest := Tokens(text, b, seps, i + 1, i + 1);
    assert r == [BStr(b.start + st, i - st)] + rest;
    forall j | 0 <= j < |r|
      ensures r[j] == Piece(b, p, c + j)
    {
      if j > 0 {
        assert r[j] == rest[j - 1];
      }
    }
  }

  /** `bstring_split` as called: the tokens are appended to `out` one
      `vec_bstring_add` at a time, after the entries already there. */
  function SplitAppend(text: string, b: BStr, seps: string, out: Vec<BStr>): (r: Vec<BStr>)
    requires out.Valid()
    ensures r.Valid()
    ensures r.items == out.items + Split(text, b, seps)
  {
    AddAll(out, Split(text, b, seps))
  }

  /** `bstring_cmp`: equal lengths and equal bytes. */
  method Cmp(left: string, right: string) returns (equal: bool)
    ensures equal <==> left == right
  {
    if |left| != |right| {
      return false;
    }
    var i := 0;
    while i < |left|
      invariant 0 <= i <= |left|
      invariant left[..i] == right[..i]
    {
      if left[i] != right[i] {
        return false;
      }
      i := i + 1;
    }
    assert left == left[..i] && right == right[..i];
    return true;
  }

  /** `bstring_chr`: the smallest index holding `needle`, or -1. */
  method Chr(haystack: string, needle: char) returns (index: int)
    ensures index == -1 <==> needle !in haystack
    ensures index != -1 ==> 0 <= index < |haystack| && haystack[index] == needle
    ensures index != -1 ==> needle !in haystack[..index]
  {
    var i := 0;
    while i < |haystack|
      invariant 0 <= i <= |haystack|
      invariant needle !in haystack[..i]
    {
      if haystack[i] == needle {
        return i;
      }
      i := i + 1;
    }
    assert haystack[..i] == haystack;
    return -1;
  }
}
