/**
 * The string helpers of the C++ window: `TrimString`, the `std::getline`
 * comma split that `GetFileFilters` and `AppendChoiceFromJsonPair` both run,
 * the filter list with its "*" default, and the parsing of one "key: [values]"
 * pair of the ordered file-type choices.
 */
module CppText {
  import opened Common

  /** One entry of the ordered file-type choices: a key and its extensions. */
  datatype Choice = Choice(key: string, values: seq<string>)

  /** The set `find_first_not_of` and `find_last_not_of` are given. */
  const TrimChars: string := " \t\r\n'\""

  /** The characters `TrimString` strips: space, tab, CR, LF and both quote marks. */
  predicate IsTrimChar(c: char) {
    c == ' ' || c == '\t' || c == '\r' || c == '\n' || c == '\'' || c == '"'
  }

  /** `IsTrimChar` holds exactly for the characters of the set passed to the searches. */
  lemma TrimCharListed(c: char)
    ensures IsTrimChar(c) <==> c in TrimChars
  {
  }

  predicate AllTrimChars(s: string) {
    forall i :: 0 <= i < |s| ==> IsTrimChar(s[i])
  }

  /** A string neither starting nor ending with a trim character. */
  predicate IsTrimmed(s: string) {
    s != [] ==> !IsTrimChar(s[0]) && !IsTrimChar(s[|s| - 1])
  }

  /** `find_first_not_of(" \t\r\n'\"")`; `None` stands for `npos`. */
  function FindFirstNotOf(s: string): (r: Option<nat>)
    ensures r.None? <==> AllTrimChars(s)
    ensures r.Some? ==> r.value < |s| && !IsTrimChar(s[r.value]) && AllTrimChars(s[..r.value])
  {
    if |s| == 0 then None
    else if !IsTrimChar(s[0]) then Some(0)
    else
      match FindFirstNotOf(s[1..])
      case None =>
        assert forall i :: 1 <= i < |s| ==> s[i] == s[1..][i - 1];
        None
      case Some(k) =>
        assert s[..k + 1] == [s[0]] + s[1..][..k];
        Some(k + 1)
  }

  /** `find_last_not_of(" \t\r\n'\"")`; `None` stands for `npos`. */
  function FindLastNotOf(s: string): (r: Option<nat>)
    ensures r.None? <==> AllTrimChars(s)
    ensures r.Some? ==> r.value < |s| && !IsTrimChar(s[r.value]) && AllTrimChars(s[r.value + 1..])
  {
    if |s| == 0 then None
    else if !IsTrimChar(s[|s| - 1]) then Some(|s| - 1)
    else
      var init := s[..|s| - 1];
      var r := FindLastNotOf(init);
      assert s == init + [s[|s| - 1]];
      if r.Some? then
        assert s[r.value + 1..] == init[r.value + 1..] + [s[|s| - 1]];
        r
      else
        None
  }

  /**
   * `TrimString`: the slice of `text` from its first to its last character
   * outside the trim set, or empty when there is none. The result is a
   * contiguous slice whose dropped prefix and suffix are trim characters only.
   */
  function TrimString(text: string): (r: string)
    ensures r == [] <==> AllTrimChars(text)
    ensures IsTrimmed(r)
    ensures |r| <= |text|
  {
    match FindFirstNotOf(text)
    case None => []
    case Some(start) =>
      var end := FindLastNotOf(text).value;
      FirstNotOfBeforeLast(text);
      var r := text[start..end + 1];
      assert r[0] == text[start] && r[|r| - 1] == text[end];
      r
  }

  /** The first character outside the trim set never comes after the last one. */
  lemma FirstNotOfBeforeLast(text: string)
    requires !AllTrimChars(text)
    ensures FindFirstNotOf(text).value <= FindLastNotOf(text).value
  {
    var start, end := FindFirstNotOf(text).value, FindLastNotOf(text).value;
    var tail := text[end + 1..];
    assert forall k :: end < k < |text| ==> text[k] == tail[k - end - 1];
  }

  /**
   * `TrimString` cuts `text` into a run of trim characters, the result and
   * another run of trim characters.
   */
  lemma TrimStringSlice(text: string) returns (i: nat, j: nat)
    ensures i <= j <= |text| && TrimString(text) == text[i..j]
    ensures AllTrimChars(text[..i]) && AllTrimChars(text[j..])
  {
    match FindFirstNotOf(text)
    case None =>
      i, j := 0, 0;
      assert text[j..] == text;
    case Some(start) =>
      FirstNotOfBeforeLast(text);
      i, j := start, FindLastNotOf(text).value + 1;
  }

  /** Trimming keeps only characters of the input. */
  lemma TrimStringChars(text: string)
    ensures forall c :: c in TrimString(text) ==> c in text
  {
    var i, j := TrimStringSlice(text);
    assert forall k :: 0 <= k < j - i ==> TrimString(text)[k] == text[i + k];
  }

  /** Trimming a trimmed string changes nothing. */
  lemma TrimStringOfTrimmed(s: string)
    requires IsTrimmed(s)
    ensures TrimString(s) == s
  {
    if s != [] {
      FindFirstNotOfIs(s, 0);
      FindLastNotOfIs(s, |s| - 1);
    }
  }

  /** `find_first_not_of` answers the first non-trim character. */
  lemma FindFirstNotOfIs(s: string, k: nat)
    requires k < |s| && !IsTrimChar(s[k]) && AllTrimChars(s[..k])
    ensures FindFirstNotOf(s) == Some(k)
  {
    assert forall j :: k < j <= |s| ==> s[..j][k] == s[k];
  }

  /** `find_last_not_of` answers the last non-trim character. */
  lemma FindLastNotOfIs(s: string, k: nat)
    requires k < |s| && !IsTrimChar(s[k]) && AllTrimChars(s[k + 1..])
    ensures FindLastNotOf(s) == Some(k)
  {
    assert forall j :: 1 <= j <= k ==> s[j..][k - j] == s[k];
  }

  /** `TrimString` is idempotent. */
  lemma TrimStringIdempotent(s: string)
    ensures TrimString(TrimString(s)) == TrimString(s)
  {
    TrimStringOfTrimmed(TrimString(s));
  }

  /**
   * The trimmed text is determined by its characterisation: whenever `text`
   * is a run of trim characters, a trimmed core and another run of trim
   * characters, `TrimString` returns that core.
   */
  lemma {:induction false} TrimStringUnique(prefix: string, core: string, suffix: string)
    requires AllTrimChars(prefix) && AllTrimChars(suffix) && IsTrimmed(core)
    ensures TrimString(prefix + core + suffix) == core
  {
    var text := prefix + core + suffix;
    if core == [] {
      assert AllTrimChars(text) by {
        forall i | 0 <= i < |text| ensures IsTrimChar(text[i]) {
          if i < |prefix| { assert text[i] == prefix[i]; }
          else { assert text[i] == suffix[i - |prefix|]; }
        }
      }
    } else {
      var p, n := |prefix|, |core|;
      assert text[p] == core[0] && text[p + n - 1] == core[n - 1];
      assert text[..p] == prefix;
      assert text[p + n..] == suffix;
      FindFirstNotOfIs(text, p);
      FindLastNotOfIs(text, p + n - 1);
      assert text[p..p + n] == core;
    }
  }

  /**
   * The pieces that successive `std::getline(stream, item, d)` calls extract
   * from `s`: text between delimiters, where an empty input gives no piece
   * and a delimiter at the very end does not start an empty last piece.
   */
  function GetlinePieces(s: string, d: char): (r: seq<string>)
    ensures forall i :: 0 <= i < |r| ==> d !in r[i]
    decreases |s|
  {
    if s == [] then []
    else
      match Find(s, d)
      case None => [s]
      case Some(k) => [s[..k]] + GetlinePieces(s[k + 1..], d)
  }

  /**
   * The getline pieces are the pieces of the plain split at every delimiter,
   * except that an empty input has none and a final delimiter adds no empty
   * piece.
   */
  lemma {:induction false} GetlinePiecesIsSplitAll(s: string, d: char)
    ensures s == [] ==> GetlinePieces(s, d) == []
    ensures s != [] && s[|s| - 1] != d ==> GetlinePieces(s, d) == SplitAll(s, d)
    ensures s != [] && s[|s| - 1] == d ==>
              GetlinePieces(s, d) + [[]] == SplitAll(s, d)
    decreases |s|
  {
    if s != [] {
      match Find(s, d)
      case None =>
      case Some(k) =>
        var rest := s[k + 1..];
        var head: seq<string> := [s[..k]];
        GetlinePiecesIsSplitAll(rest, d);
        assert GetlinePieces(s, d) == head + GetlinePieces(rest, d);
        assert SplitAll(s, d) == head + SplitAll(rest, d);
        if rest == [] {
          assert SplitAll(rest, d) == [[]];
          assert GetlinePieces(rest, d) == [];
        } else {
          assert s[|s| - 1] == rest[|rest| - 1];
          AppendAssoc(head, GetlinePieces(rest, d), [[]]);
        }
    }
  }

  /**
   * The non-empty trimmed pieces, in order: `TrimString` of each piece,
   * dropping those that trim to nothing. No more pieces are kept than there
   * were; `KeepTrimmedElements` says what each kept piece is like.
   */
  function KeepTrimmed(pieces: seq<string>): (r: seq<string>)
    ensures |r| <= |pieces|
  {
    if pieces == [] then []
    else
      var t := TrimString(pieces[0]);
      (if t == [] then [] else [t]) + KeepTrimmed(pieces[1..])
  }

  /** Every kept piece is non-empty and trimmed. */
  lemma {:induction false} KeepTrimmedElements(pieces: seq<string>)
    ensures forall i :: 0 <= i < |KeepTrimmed(pieces)| ==>
              KeepTrimmed(pieces)[i] != [] && IsTrimmed(KeepTrimmed(pieces)[i])
  {
    if pieces != [] {
      KeepTrimmedElements(pieces[1..]);
    }
  }

  lemma KeepTrimmedCons(piece: string, pieces: seq<string>)
    ensures KeepTrimmed([piece] + pieces) ==
              (if TrimString(piece) == [] then [] else [TrimString(piece)]) + KeepTrimmed(pieces)
  {
    assert ([piece] + pieces)[0] == piece && ([piece] + pieces)[1..] == pieces;
  }

  lemma {:induction false} KeepTrimmedAppend(a: seq<string>, b: seq<string>)
    ensures KeepTrimmed(a + b) == KeepTrimmed(a) + KeepTrimmed(b)
    decreases |a|
  {
    if a == [] {
      assert a + b == b;
    } else {
      assert (a + b)[0] == a[0] && (a + b)[1..] == a[1..] + b;
      KeepTrimmedAppend(a[1..], b);
      var t := TrimString(a[0]);
      var head: seq<string> := if t == [] then [] else [t];
      assert KeepTrimmed(a + b) == head + (KeepTrimmed(a[1..]) + KeepTrimmed(b));
      AppendAssoc(head, KeepTrimmed(a[1..]), KeepTrimmed(b));
    }
  }

  /** A piece is dropped exactly when it consists of trim characters only. */
  lemma {:induction false} KeepTrimmedEmpty(pieces: seq<string>)
    ensures KeepTrimmed(pieces) == [] <==> forall i :: 0 <= i < |pieces| ==> AllTrimChars(pieces[i])
    decreases |pieces|
  {
    if pieces != [] {
      KeepTrimmedEmpty(pieces[1..]);
      assert forall i :: 1 <= i < |pieces| ==> pieces[i] == pieces[1..][i - 1];
    }
  }

  /**
   * Whatever getline leaves out (an empty input, an empty piece after a
   * final comma) trims to nothing, so the kept pieces are those of the plain
   * split at every comma.
   */
  lemma KeepTrimmedGetline(s: string)
    ensures KeepTrimmed(GetlinePieces(s, ',')) == KeepTrimmed(SplitAll(s, ','))
  {
    GetlinePiecesIsSplitAll(s, ',');
    if s == [] {
      assert SplitAll(s, ',') == [[]];
    } else if s[|s| - 1] == ',' {
      KeepTrimmedAppend(GetlinePieces(s, ','), [[]]);
    }
  }

  /**
   * The `std::getline` loop over a comma-separated text that both
   * `GetFileFilters` and `AppendChoiceFromJsonPair` run: each extracted item
   * is trimmed and kept when non-empty.
   */
  method TrimmedCommaPieces(text: string) returns (items: seq<string>)
    ensures items == KeepTrimmed(GetlinePieces(text, ','))
  {
    items := [];
    var pos := 0;
    assert text[pos..] == text;
    while pos < |text|
      invariant 0 <= pos <= |text|
      invariant KeepTrimmed(GetlinePieces(text, ',')) == items + KeepTrimmed(GetlinePieces(text[pos..], ','))
    {
      var rest := text[pos..];
      var item: string;
      var next: nat;
      match Find(rest, ',') {
        case None =>
          item, next := rest, |text|;
          GetlineLast(text, pos);
        case Some(k) =>
          item, next := rest[..k], pos + k + 1;
          GetlineCut(text, pos, k);
      }
      var trimmed := TrimString(item);
      ghost var later := KeepTrimmed(GetlinePieces(text[next..], ','));
      KeepTrimmedCons(item, GetlinePieces(text[next..], ','));
      if trimmed != [] {
        AppendAssoc(items, [trimmed], later);
        items := items + [trimmed];
      } else {
        assert [] + later == later;
      }
      pos := next;
    }
  }

  /** One `getline` call that stops at the comma at offset `k` of the rest of the text. */
  lemma GetlineCut(text: string, pos: nat, k: nat)
    requires pos < |text| && Find(text[pos..], ',') == Some(k)
    ensures pos + k + 1 <= |text|
    ensures GetlinePieces(text[pos..], ',') == [text[pos..][..k]] + GetlinePieces(text[pos + k + 1..], ',')
  {
    assert text[pos..][k + 1..] == text[pos + k + 1..];
  }

  /** The last `getline` call, which finds no comma and takes the rest of the text. */
  lemma GetlineLast(text: string, pos: nat)
    requires pos < |text| && Find(text[pos..], ',') == None
    ensures GetlinePieces(text[pos..], ',') == [text[pos..]] + GetlinePieces(text[|text|..], ',')
  {
    assert text[|text|..] == [];
  }

  /**
   * `GetFileFilters`: the non-empty trimmed comma-separated pieces of the
   * filter text box, in order, or the single wildcard "*" when there are none.
   */
  method GetFileFilters(text: string) returns (filters: seq<string>)
    ensures filters != []
    ensures forall i :: 0 <= i < |filters| ==> filters[i] != [] && IsTrimmed(filters[i])
    ensures var kept := KeepTrimmed(SplitAll(text, ','));
            filters == if kept == [] then ["*"] else kept
  {
    filters := TrimmedCommaPieces(text);
    KeepTrimmedGetline(text);
    KeepTrimmedElements(GetlinePieces(text, ','));
    if filters == [] {
      filters := ["*"];
    }
  }

  /**
   * The text strictly between the first '[' and the last ']' of `valueStr`,
   * or `None` when either is missing or the '[' does not come first.
   */
  function ArrayContent(valueStr: string): (r: Option<string>)
    ensures r.Some? ==> '[' in valueStr && ']' in valueStr
  {
    match (Find(valueStr, '['), RFind(valueStr, ']'))
    case (Some(arrStart), Some(arrEnd)) =>
      if arrStart < arrEnd then Some(valueStr[arrStart + 1..arrEnd]) else None
    case _ => None
  }

  /** The values of a pair: the kept pieces of the array content, or none. */
  function ValuesOf(valueStr: string): (r: seq<string>)
    ensures forall i :: 0 <= i < |r| ==> r[i] != [] && IsTrimmed(r[i]) && ',' !in r[i]
  {
    match ArrayContent(valueStr)
    case None => []
    case Some(content) =>
      KeepTrimmedNoDelimiter(GetlinePieces(content, ','));
      KeepTrimmedElements(GetlinePieces(content, ','));
      KeepTrimmed(GetlinePieces(content, ','))
  }

  /** Trimming never introduces a character, so pieces free of ',' stay free of it. */
  lemma {:induction false} KeepTrimmedNoDelimiter(pieces: seq<string>)
    requires forall i :: 0 <= i < |pieces| ==> ',' !in pieces[i]
    ensures forall i :: 0 <= i < |KeepTrimmed(pieces)| ==> ',' !in KeepTrimmed(pieces)[i]
    decreases |pieces|
  {
    if pieces != [] {
      KeepTrimmedNoDelimiter(pieces[1..]);
      TrimStringChars(pieces[0]);
    }
  }

  /**
   * The entry that `AppendChoiceFromJsonPair` appends for one segment, or
   * `None` when it appends nothing: no ':' at all, or a key (the text before
   * the first ':') that trims to nothing.
   */
  function ChoiceOfPair(pairText: string): (r: Option<Choice>)
    ensures r.None? ==> (':' !in pairText || AllTrimChars(pairText[..Find(pairText, ':').value]))
    ensures r.Some? ==> r.value.key != [] && IsTrimmed(r.value.key) && ':' !in r.value.key
    ensures r.Some? ==> forall i :: 0 <= i < |r.value.values| ==>
              r.value.values[i] != [] && IsTrimmed(r.value.values[i]) && ',' !in r.value.values[i]
  {
    match Find(pairText, ':')
    case None => None
    case Some(colonPos) =>
      var key := TrimString(pairText[..colonPos]);
      if key == [] then None
      else
        TrimStringChars(pairText[..colonPos]);
        Some(Choice(key, ValuesOf(pairText[colonPos + 1..])))
  }

  /**
   * A pair splits at its FIRST colon: with a key part free of ':' the entry
   * is the trimmed key and the values of everything after the colon (which
   * may hold further colons), and there is no entry when the key trims to
   * nothing.
   */
  lemma PairSplitsAtFirstColon(keyPart: string, valuePart: string)
    requires ':' !in keyPart
    ensures var pair := keyPart + ":" + valuePart;
            ChoiceOfPair(pair) ==
              if AllTrimChars(keyPart) then None
              else Some(Choice(TrimString(keyPart), ValuesOf(valuePart)))
  {
    var pair := keyPart + ":" + valuePart;
    var n := |keyPart|;
    assert pair[n] == ':';
    assert pair[..n] == keyPart;
    FindIsFirst(pair, ':', n);
    assert pair[n + 1..] == valuePart;
  }

  /** A segment without any colon is skipped. */
  lemma PairWithoutColonSkipped(pairText: string)
    requires ':' !in pairText
    ensures ChoiceOfPair(pairText) == None
  {
  }

  /**
   * The values are the non-empty trimmed comma pieces of the text strictly
   * between the first '[' and the last ']' (brackets in between included).
   */
  lemma ValuesBetweenBrackets(before: string, content: string, after: string)
    requires '[' !in before && ']' !in after
    ensures ValuesOf(before + "[" + content + "]" + after) == KeepTrimmed(SplitAll(content, ','))
  {
    ArrayContentBetween(before, content, after);
    KeepTrimmedGetline(content);
  }

  /** The first '[' and the last ']' enclose `content`. */
  lemma ArrayContentBetween(before: string, content: string, after: string)
    requires '[' !in before && ']' !in after
    ensures ArrayContent(before + "[" + content + "]" + after) == Some(content)
  {
    var open := before + "[";
    var close := "]" + after;
    var v := open + content + close;
    assert v == before + "[" + content + "]" + after;
    var a, b := |before|, |open| + |content|;
    assert v[a] == '[' && v[..a] == before;
    assert v[b] == ']' && v[b + 1..] == after;
    FindIsFirst(v, '[', a);
    RFindIsLast(v, ']', b);
    assert v[a + 1..b] == content;
  }

  /**
   * There is array content exactly when some '[' comes before some ']';
   * otherwise (a bracket missing, or every '[' after every ']') there is none.
   */
  lemma ArrayContentNone(valueStr: string)
    ensures ArrayContent(valueStr).None? <==> !OpensBeforeCloses(valueStr, '[', ']')
  {
    FirstBeforeLast(valueStr, '[', ']');
  }

  /** Without a '[' before a ']' the value list is empty rather than an error. */
  lemma ValuesWithoutBrackets(valueStr: string)
    requires !OpensBeforeCloses(valueStr, '[', ']')
    ensures ValuesOf(valueStr) == []
  {
    ArrayContentNone(valueStr);
  }

  /**
   * `AppendChoiceFromJsonPair`: the caller's vector, passed by reference, is
   * modelled as the value before and after the call. At most one entry is
   * appended at the end and the earlier entries are untouched.
   */
  method AppendChoiceFromJsonPair(pairText: string, orderedChoices: seq<Choice>)
    returns (updated: seq<Choice>)
    ensures updated == orderedChoices + OptionToSeq(ChoiceOfPair(pairText))
  {
    updated := orderedChoices;
    var colon := Find(pairText, ':');
    if colon.None? {
      return;
    }
    var colonPos := colon.value;
    var key := pairText[..colonPos];
    var valueStr := pairText[colonPos + 1..];

    key := TrimString(key);
    if key == [] {
      return;
    }

    var values: seq<string> := [];
    var arrStart := Find(valueStr, '[');
    var arrEnd := RFind(valueStr, ']');
    if arrStart.Some? && arrEnd.Some? && arrStart.value < arrEnd.value {
      var arrayContent := valueStr[arrStart.value + 1..arrEnd.value];
      assert ArrayContent(valueStr) == Some(arrayContent);
      values := TrimmedCommaPieces(arrayContent);
    } else {
      assert ArrayContent(valueStr) == None;
    }
    assert values == ValuesOf(valueStr);
    assert ChoiceOfPair(pairText) == Some(Choice(key, values));
    updated := updated + [Choice(key, values)];
  }
}
