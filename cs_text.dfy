/**
 * The string helpers of the C# window: `Char.IsWhiteSpace`, `String.Trim`,
 * `String.IsNullOrWhiteSpace` and the filter list of `GetFileFilters`
 * (trim, split at ',' dropping empty pieces, then trim every piece).
 */
module CsText {
  import opened Common

  /** The 25 characters of the Unicode `White_Space` property, one by one. */
  const WhiteSpaceChars: set<char> := {
    '\U{0009}', '\U{000A}', '\U{000B}', '\U{000C}', '\U{000D}', '\U{0020}', '\U{0085}', '\U{00A0}',
    '\U{1680}', '\U{2000}', '\U{2001}', '\U{2002}', '\U{2003}', '\U{2004}', '\U{2005}', '\U{2006}',
    '\U{2007}', '\U{2008}', '\U{2009}', '\U{200A}', '\U{2028}', '\U{2029}', '\U{202F}', '\U{205F}',
    '\U{3000}'
  }

  /**
   * `Char.IsWhiteSpace`: the space, line and paragraph separators of
   * Unicode, the controls U+0009 to U+000D, and U+0085.
   */
  predicate IsWhiteSpace(c: char) {
    ('\U{0009}' <= c <= '\U{000D}') || c == '\U{0020}' || c == '\U{0085}' || c == '\U{00A0}'
    || c == '\U{1680}' || ('\U{2000}' <= c <= '\U{200A}') || c == '\U{2028}' || c == '\U{2029}'
    || c == '\U{202F}' || c == '\U{205F}' || c == '\U{3000}'
  }

  /** The ranges of `IsWhiteSpace` hold exactly the listed characters. */
  lemma WhiteSpaceListed(c: char)
    ensures IsWhiteSpace(c) <==> c in WhiteSpaceChars
  {
  }

  /** `String.IsNullOrWhiteSpace` on a non-null string (the empty string included). */
  predicate AllWhiteSpace(s: string) {
    forall i :: 0 <= i < |s| ==> IsWhiteSpace(s[i])
  }

  /** Neither the first nor the last character is white space. */
  predicate NoOuterWhiteSpace(s: string) {
    s != [] ==> !IsWhiteSpace(s[0]) && !IsWhiteSpace(s[|s| - 1])
  }

  /** The number of white-space characters `s` starts with. */
  function LeadingWhiteSpace(s: string): (n: nat)
    ensures n <= |s|
    ensures forall i :: 0 <= i < n ==> IsWhiteSpace(s[i])
    ensures n < |s| ==> !IsWhiteSpace(s[n])
    decreases |s|
  {
    if s != [] && IsWhiteSpace(s[0]) then
      var n := LeadingWhiteSpace(s[1..]);
      assert forall i :: 1 <= i < n + 1 ==> s[i] == s[1..][i - 1];
      n + 1
    else 0
  }

  /** The number of white-space characters `s` ends with. */
  function TrailingWhiteSpace(s: string): (n: nat)
    ensures n <= |s|
    ensures forall i :: |s| - n <= i < |s| ==> IsWhiteSpace(s[i])
    ensures n < |s| ==> !IsWhiteSpace(s[|s| - n - 1])
    decreases |s|
  {
    if s != [] && IsWhiteSpace(s[|s| - 1]) then
      var init := s[..|s| - 1];
      var n := TrailingWhiteSpace(init);
      assert forall i :: |s| - n - 1 <= i < |s| - 1 ==> s[i] == init[i];
      n + 1
    else 0
  }

  /** `String.TrimStart()`: the input without its leading white space. */
  function TrimStart(s: string): (r: string)
    ensures NoLeadingWhiteSpace(r)
  {
    s[LeadingWhiteSpace(s)..]
  }

  /** `String.TrimEnd()`: the input without its trailing white space. */
  function TrimEnd(s: string): (r: string)
    ensures NoTrailingWhiteSpace(r)
  {
    s[..|s| - TrailingWhiteSpace(s)]
  }

  predicate NoLeadingWhiteSpace(s: string) {
    s != [] ==> !IsWhiteSpace(s[0])
  }

  predicate NoTrailingWhiteSpace(s: string) {
    s != [] ==> !IsWhiteSpace(s[|s| - 1])
  }

  /**
   * `String.Trim()`: the input without its leading and trailing white space.
   * It is empty exactly when the input is all white space.
   */
  function Trim(s: string): (r: string)
    ensures NoOuterWhiteSpace(r)
    ensures r == [] <==> AllWhiteSpace(s)
    ensures |r| <= |s|
  {
    var t := TrimStart(s);
    var r := TrimEnd(t);
    TrimOfTrimStart(s);
    r
  }

  lemma TrimOfTrimStart(s: string)
    ensures NoOuterWhiteSpace(TrimEnd(TrimStart(s)))
    ensures TrimEnd(TrimStart(s)) == [] <==> AllWhiteSpace(s)
  {
    var a := LeadingWhiteSpace(s);
    var t := s[a..];
    var b := TrailingWhiteSpace(t);
    var r := t[..|t| - b];
    if r != [] {
      assert r[0] == t[0];
      assert !IsWhiteSpace(s[a]);
    } else {
      assert a == |s|;
    }
  }

  /** `Trim` cuts its input into white space, the result and white space. */
  lemma TrimSlice(s: string) returns (i: nat, j: nat)
    ensures i <= j <= |s| && Trim(s) == s[i..j]
    ensures AllWhiteSpace(s[..i]) && AllWhiteSpace(s[j..])
  {
    i := LeadingWhiteSpace(s);
    var t := s[i..];
    j := i + |t| - TrailingWhiteSpace(t);
    assert s[i..j] == t[..|t| - TrailingWhiteSpace(t)];
    assert forall k :: 0 <= k < i ==> s[..i][k] == s[k];
    assert forall m :: 0 <= m < |s| - j ==> s[j..][m] == t[j - i + m];
  }

  /** Any split into white space, a core without outer white space and white space is undone by `Trim`. */
  lemma {:induction false} TrimUnique(prefix: string, core: string, suffix: string)
    requires AllWhiteSpace(prefix) && AllWhiteSpace(suffix) && NoOuterWhiteSpace(core)
    ensures Trim(prefix + core + suffix) == core
  {
    var s := prefix + core + suffix;
    if core == [] {
      assert forall i :: 0 <= i < |s| ==> s[i] == (prefix + suffix)[i];
    } else {
      TrimStartUnique(prefix, core + suffix);
      assert s == prefix + (core + suffix);
      TrimEndUnique(core, suffix);
    }
  }

  lemma {:induction false} TrimStartUnique(prefix: string, rest: string)
    requires AllWhiteSpace(prefix) && (rest == [] || !IsWhiteSpace(rest[0]))
    ensures TrimStart(prefix + rest) == rest
    decreases |prefix|
  {
    if prefix != [] {
      assert (prefix + rest)[1..] == prefix[1..] + rest;
      TrimStartUnique(prefix[1..], rest);
    } else {
      assert prefix + rest == rest;
    }
  }

  lemma {:induction false} TrimEndUnique(rest: string, suffix: string)
    requires AllWhiteSpace(suffix) && (rest == [] || !IsWhiteSpace(rest[|rest| - 1]))
    ensures TrimEnd(rest + suffix) == rest
    decreases |suffix|
  {
    if suffix != [] {
      var n := |suffix|;
      assert (rest + suffix)[..|rest + suffix| - 1] == rest + suffix[..n - 1];
      TrimEndUnique(rest, suffix[..n - 1]);
    } else {
      assert rest + suffix == rest;
    }
  }

  /** Trimming twice is trimming once. */
  lemma TrimIdempotent(s: string)
    ensures Trim(Trim(s)) == Trim(s)
  {
    var r := Trim(s);
    if r != [] {
      assert [] + r + [] == r;
      TrimUnique([], r, []);
    }
  }

  /** Trimming keeps only characters of the input. */
  lemma TrimKeepsChars(s: string)
    ensures forall c :: c in Trim(s) ==> c in s
  {
    var i, j := TrimSlice(s);
    assert forall k :: 0 <= k < j - i ==> Trim(s)[k] == s[i + k];
  }

  // ---------------------------------------------------------------------
  // GetFileFilters

  /**
   * `Split(',', StringSplitOptions.RemoveEmptyEntries)` followed by
   * `Select(s => s.Trim())`: every filter is trimmed and holds no comma.
   */
  function SplitFilters(input: string): (r: seq<string>)
    ensures forall i :: 0 <= i < |r| ==> NoOuterWhiteSpace(r[i]) && ',' !in r[i]
  {
    var kept := NonEmpty(SplitAll(input, ','));
    NonEmptyElements(SplitAll(input, ','), ',');
    TrimEachElements(kept, ',');
    TrimEach(kept)
  }

  /**
   * The pieces that are not empty, in order (the empty test comes before any
   * trimming): every non-empty piece survives and nothing else does.
   */
  function NonEmpty(pieces: seq<string>): (r: seq<string>)
    ensures |r| <= |pieces|
    ensures forall p :: p in r <==> p in pieces && p != []
  {
    if pieces == [] then []
    else (if pieces[0] == [] then [] else [pieces[0]]) + NonEmpty(pieces[1..])
  }

  function TrimEach(pieces: seq<string>): (r: seq<string>)
    ensures |r| == |pieces|
    ensures forall i :: 0 <= i < |r| ==> r[i] == Trim(pieces[i])
  {
    seq(|pieces|, i requires 0 <= i < |pieces| => Trim(pieces[i]))
  }

  /** Trimming every piece keeps the pieces free of a character none of them held. */
  lemma TrimEachElements(pieces: seq<string>, d: char)
    requires forall i :: 0 <= i < |pieces| ==> d !in pieces[i]
    ensures forall i :: 0 <= i < |pieces| ==> NoOuterWhiteSpace(TrimEach(pieces)[i]) && d !in TrimEach(pieces)[i]
  {
    forall i | 0 <= i < |pieces| ensures d !in Trim(pieces[i]) {
      TrimKeepsChars(pieces[i]);
    }
  }

  /**
   * `GetFileFilters` on the text of the filter box (a null text reads as
   * empty): `["*"]` for blank text, otherwise the trimmed non-empty comma
   * pieces of the trimmed text.
   */
  function GetFileFilters(text: string): (r: seq<string>)
    ensures AllWhiteSpace(text) ==> r == ["*"]
    ensures !AllWhiteSpace(text) ==> r == SplitFilters(Trim(text))
    ensures forall i :: 0 <= i < |r| ==> NoOuterWhiteSpace(r[i]) && ',' !in r[i]
  {
    var input := Trim(text);
    if input == [] then
      var star := "*";
      assert star[0] == '*' && |star| == 1;
      [star]
    else SplitFilters(input)
  }

  /** The kept pieces are non-empty and hold no delimiter when no piece did. */
  lemma {:induction false} NonEmptyElements(pieces: seq<string>, d: char)
    requires forall i :: 0 <= i < |pieces| ==> d !in pieces[i]
    ensures forall i :: 0 <= i < |NonEmpty(pieces)| ==> NonEmpty(pieces)[i] != [] && d !in NonEmpty(pieces)[i]
  {
    if pieces != [] {
      NonEmptyElements(pieces[1..], d);
    }
  }

  lemma NonEmptyCons(piece: string, pieces: seq<string>)
    ensures NonEmpty([piece] + pieces) == (if piece == [] then [] else [piece]) + NonEmpty(pieces)
  {
    assert ([piece] + pieces)[0] == piece && ([piece] + pieces)[1..] == pieces;
  }

  lemma TrimEachAppend(a: seq<string>, b: seq<string>)
    ensures TrimEach(a + b) == TrimEach(a) + TrimEach(b)
  {
  }

  /**
   * The pieces of a text made of a comma-free piece `p`, a comma and more
   * text: `p` contributes its trimmed self unless it is empty, and a
   * white-space-only piece contributes "" because emptiness is checked
   * before trimming. The pieces of `rest` follow in order.
   */
  lemma SplitFiltersCons(p: string, rest: string)
    requires ',' !in p
    ensures SplitFilters(p + "," + rest) == (if p == [] then [] else [Trim(p)]) + SplitFilters(rest)
  {
    SplitAllCons(p, rest, ',');
    NonEmptyCons(p, SplitAll(rest, ','));
    var head: seq<string> := if p == [] then [] else [p];
    TrimEachAppend(head, NonEmpty(SplitAll(rest, ',')));
    assert TrimEach(head) == if p == [] then [] else [Trim(p)];
  }

  /** The last piece: a comma-free text gives itself trimmed, or nothing when empty. */
  lemma SplitFiltersSingle(p: string)
    requires ',' !in p
    ensures SplitFilters(p) == if p == [] then [] else [Trim(p)]
  {
    assert SplitAll(p, ',') == [p];
    NonEmptyCons(p, []);
    assert [p] + [] == [p];
  }

  /** A piece of white space alone becomes an empty filter. */
  lemma WhiteSpacePieceIsEmptyFilter(p: string, rest: string)
    requires ',' !in p && p != [] && AllWhiteSpace(p)
    ensures SplitFilters(p + "," + rest) == [""] + SplitFilters(rest)
  {
    SplitFiltersCons(p, rest);
  }

  /** No filter at all exactly when the (non-blank) trimmed text is made of commas only. */
  lemma {:induction false} SplitFiltersEmpty(input: string)
    ensures SplitFilters(input) == [] <==> AllCommas(input)
    decreases |input|
  {
    match Find(input, ',')
    case None =>
      SplitFiltersSingle(input);
      if input != [] {
        assert input[0] != ',';
      }
    case Some(k) =>
      var p, rest := input[..k], input[k + 1..];
      assert input == p + "," + rest;
      SplitFiltersCons(p, rest);
      SplitFiltersEmpty(rest);
      AllCommasCons(p, rest);
      if p != [] {
        assert p[0] != ',';
      }
  }

  /** Text made of commas only. */
  predicate AllCommas(s: string) {
    forall i :: 0 <= i < |s| ==> s[i] == ','
  }

  lemma AllCommasCons(p: string, rest: string)
    ensures AllCommas(p + "," + rest) <==> AllCommas(p) && AllCommas(rest)
  {
    var s := p + "," + rest;
    assert forall i :: 0 <= i < |p| ==> s[i] == p[i];
    assert forall i :: 0 <= i < |rest| ==> s[|p| + 1 + i] == rest[i];
  }

  /** The filters of non-blank text are empty exactly when the trimmed text is all commas. */
  lemma GetFileFiltersEmpty(text: string)
    requires !AllWhiteSpace(text)
    ensures GetFileFilters(text) == [] <==> AllCommas(Trim(text))
  {
    SplitFiltersEmpty(Trim(text));
  }
}
