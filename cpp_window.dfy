/**
 * The C++ window: the order-preserving parser of the file-type choices text
 * `{key1: [ext, ext], key2: [ext]}`, the result log it writes to, and the two
 * combo-box mappings with their `hresult_invalid_argument` errors.
 *
 * The parser cuts the text between the first '{' and the last '}' at every
 * comma met while the bracket depth (opening '[' minus closing ']' seen so
 * far in the segment) is exactly zero, and turns each segment into at most
 * one entry with `ChoiceOfPair`. `TopSegments` states that split
 * recursively; the window's scanning loop is proved equal to it.
 */
module CppWindow {
  import opened Common
  import opened PickerEnums
  import opened ResultLog
  import opened CppText

  /** The depth contribution of one character. */
  function BracketStep(c: char): int {
    if c == '[' then 1 else if c == ']' then -1 else 0
  }

  /** Opening minus closing square brackets in `s` (no balance is required). */
  function Depth(s: string): int {
    if s == [] then 0 else Depth(s[..|s| - 1]) + BracketStep(s[|s| - 1])
  }

  lemma {:induction false} DepthAppend(a: string, b: string)
    ensures Depth(a + b) == Depth(a) + Depth(b)
    decreases |b|
  {
    if b == [] {
      assert a + b == a;
    } else {
      var n := |b|;
      assert (a + b)[..|a + b| - 1] == a + b[..n - 1];
      DepthAppend(a, b[..n - 1]);
    }
  }

  /** Position `i` of `s` is a comma at bracket depth zero: a split point. */
  predicate IsTopComma(s: string, i: int) {
    0 <= i < |s| && s[i] == ',' && Depth(s[..i]) == 0
  }

  /** The first split point of `s` at or after `i`. */
  function TopCommaFrom(s: string, i: nat): (r: Option<nat>)
    requires i <= |s|
    ensures r.Some? ==> i <= r.value && IsTopComma(s, r.value)
    decreases |s| - i
  {
    if i == |s| then None
    else if IsTopComma(s, i) then Some(i)
    else TopCommaFrom(s, i + 1)
  }

  /** `TopCommaFrom` finds the first split point at or after `i`, and `None` means there is none. */
  lemma {:induction false} TopCommaFromFirst(s: string, i: nat)
    requires i <= |s|
    ensures TopCommaFrom(s, i).Some? ==> forall j :: i <= j < TopCommaFrom(s, i).value ==> !IsTopComma(s, j)
    ensures TopCommaFrom(s, i).None? ==> forall j :: i <= j < |s| ==> !IsTopComma(s, j)
    decreases |s| - i
  {
    if i < |s| && !IsTopComma(s, i) {
      TopCommaFromFirst(s, i + 1);
    }
  }

  /**
   * The body cut at its split points, restarting the depth count after each
   * cut. An empty remainder after the last cut yields no segment.
   */
  function TopSegments(s: string): (r: seq<string>)
    ensures s != [] ==> |r| >= 1
    decreases |s|
  {
    if s == [] then []
    else
      match TopCommaFrom(s, 0)
      case None => [s]
      case Some(k) => [s[..k]] + TopSegments(s[k + 1..])
  }

  /** The entries of the segments, in segment order; skipped segments give none. */
  function ChoicesOf(segments: seq<string>): seq<Choice>
  {
    if segments == [] then []
    else OptionToSeq(ChoiceOfPair(segments[0])) + ChoicesOf(segments[1..])
  }

  /** There are never more entries than segments, and every entry has a non-empty trimmed key. */
  lemma {:induction false} ChoicesOfKeys(segments: seq<string>)
    ensures |ChoicesOf(segments)| <= |segments|
    ensures forall i :: 0 <= i < |ChoicesOf(segments)| ==>
              ChoicesOf(segments)[i].key != [] && IsTrimmed(ChoicesOf(segments)[i].key)
    decreases |segments|
  {
    if segments != [] {
      ChoicesOfKeys(segments[1..]);
    }
  }

  lemma ChoicesOfCons(segment: string, segments: seq<string>)
    ensures ChoicesOf([segment] + segments) == OptionToSeq(ChoiceOfPair(segment)) + ChoicesOf(segments)
  {
    assert ([segment] + segments)[0] == segment && ([segment] + segments)[1..] == segments;
  }

  /**
   * The text strictly between the first '{' and the last '}', or `None`
   * ("Invalid JSON format") when either is missing or the '{' is not first.
   */
  function BraceBody(jsonStr: string): (r: Option<string>)
    ensures r.Some? ==> '{' in jsonStr && '}' in jsonStr && |r.value| <= |jsonStr| - 2
  {
    match (Find(jsonStr, '{'), RFind(jsonStr, '}'))
    case (Some(start), Some(end)) =>
      if start < end then Some(jsonStr[start + 1..end]) else None
    case _ => None
  }

  /**
   * What `DeserizeJsonInsertionOrder` returns; `None` for an invalid format,
   * which is exactly a text where no '{' comes before a '}'.
   */
  function ParseChoices(jsonStr: string): (r: Option<seq<Choice>>)
    ensures r.None? <==> !OpensBeforeCloses(jsonStr, '{', '}')
    ensures r.Some? ==> forall i :: 0 <= i < |r.value| ==> r.value[i].key != [] && IsTrimmed(r.value[i].key)
  {
    BraceBodyNone(jsonStr);
    match BraceBody(jsonStr)
    case None => None
    case Some(body) =>
      ChoicesOfKeys(TopSegments(body));
      Some(ChoicesOf(TopSegments(body)))
  }

  /** The log messages of a successful parse, one per entry, in entry order. */
  function InsertionMessages(choices: seq<Choice>): (r: seq<string>)
    ensures |r| == |choices|
  {
    seq(|choices|, i requires 0 <= i < |choices| => "Inserting choice: " + choices[i].key)
  }

  // ---------------------------------------------------------------------
  // Properties of the split and of the parse

  /** Split points before the end of `a` are those of `a` itself. */
  lemma TopCommaPrefix(a: string, t: string, j: int)
    requires 0 <= j < |a|
    ensures IsTopComma(a + t, j) <==> IsTopComma(a, j)
  {
    assert (a + t)[..j] == a[..j];
  }

  /** After a prefix of depth zero, split points are those of the rest. */
  lemma TopCommaShift(a: string, t: string, j: int)
    requires Depth(a) == 0 && 0 <= j < |t|
    ensures IsTopComma(a + t, |a| + j) <==> IsTopComma(t, j)
  {
    assert (a + t)[..|a| + j] == a + t[..j];
    DepthAppend(a, t[..j]);
  }

  /** The segment before a split point has depth zero, and so has the point itself. */
  lemma SplitPointDepth(s: string, k: nat)
    requires IsTopComma(s, k)
    ensures Depth(s[..k + 1]) == 0
    ensures s == s[..k + 1] + s[k + 1..]
  {
    assert s[..k + 1][..k] == s[..k];
  }

  /**
   * Joining the segments with ',' rebuilds the body, up to a final split
   * point (a trailing top-level comma), which yields no segment.
   */
  lemma {:induction false} TopSegmentsJoin(s: string)
    ensures s != [] && IsTopComma(s, |s| - 1) ==> Join(TopSegments(s), ",") + "," == s
    ensures !(s != [] && IsTopComma(s, |s| - 1)) ==> Join(TopSegments(s), ",") == s
    decreases |s|
  {
    if s != [] {
      TopCommaFromFirst(s, 0);
      var f := TopCommaFrom(s, 0);
      if f.Some? {
        var k := f.value;
        var rest := s[k + 1..];
        TopSegmentsCut(s, k);
        if rest == [] {
          FinalComma(s, k);
          assert TopSegments(s) == [s[..k]];
        } else {
          TopSegmentsJoin(rest);
          JoinCons(s[..k], TopSegments(rest), ",");
          LastTopCommaShift(s, k);
          AppendAssoc(s[..k] + ",", Join(TopSegments(rest), ","), ",");
        }
      }
    }
  }

  /** A split point at the very end: the text is what comes before it and the comma. */
  lemma FinalComma(s: string, k: nat)
    requires k + 1 == |s| && s[k] == ','
    ensures s == s[..k] + ","
  {
  }

  /** Past a split point, the last position is a split point of `s` iff it is one of the rest. */
  lemma LastTopCommaShift(s: string, k: nat)
    requires IsTopComma(s, k) && k + 1 < |s|
    ensures s == s[..k] + "," + s[k + 1..]
    ensures IsTopComma(s, |s| - 1) <==> IsTopComma(s[k + 1..], |s| - k - 2)
  {
    SplitPointDepth(s, k);
    TopCommaShift(s[..k + 1], s[k + 1..], |s| - k - 2);
    assert s[..k + 1] == s[..k] + ",";
  }

  /**
   * Every segment is free of split points of its own, and every segment but
   * the last has depth zero: commas inside brackets never cut.
   */
  lemma {:induction false} TopSegmentsUncut(s: string)
    ensures forall n, j :: 0 <= n < |TopSegments(s)| && 0 <= j < |TopSegments(s)[n]| ==>
              !IsTopComma(TopSegments(s)[n], j)
    ensures forall n :: 0 <= n < |TopSegments(s)| - 1 ==> Depth(TopSegments(s)[n]) == 0
    decreases |s|
  {
    if s != [] {
      TopCommaFromFirst(s, 0);
      match TopCommaFrom(s, 0)
      case None =>
      case Some(k) =>
        var rest := s[k + 1..];
        TopSegmentsUncut(rest);
        SplitPointDepth(s, k);
        var head := s[..k];
        assert s[..k + 1][..k] == head;
        forall j | 0 <= j < k ensures !IsTopComma(head, j) {
          TopCommaPrefix(head, s[k..], j);
          assert head + s[k..] == s;
        }
        assert TopSegments(s) == [head] + TopSegments(rest);
    }
  }

  /**
   * ORDER PRESERVATION. Parsing a body made of a part `a` of depth zero, a
   * comma and a part `b` yields the entries of `a` followed by those of `b`.
   */
  lemma {:induction false} ChoicesOfTopConcat(a: string, b: string)
    requires Depth(a) == 0
    ensures ChoicesOf(TopSegments(a + "," + b)) == ChoicesOf(TopSegments(a)) + ChoicesOf(TopSegments(b))
    decreases |a|, 1
  {
    var f := TopCommaFrom(a, 0);
    if f.Some? {
      ChoicesOfTopConcatCut(a, b, f.value);
    } else {
      ChoicesOfTopConcatUncut(a, b);
    }
  }

  /** `ChoicesOfTopConcat` when `a` has a first split point `k`. */
  lemma {:induction false} ChoicesOfTopConcatCut(a: string, b: string, k: nat)
    requires Depth(a) == 0 && TopCommaFrom(a, 0) == Some(k)
    ensures ChoicesOf(TopSegments(a + "," + b)) == ChoicesOf(TopSegments(a)) + ChoicesOf(TopSegments(b))
    decreases |a|, 0
  {
    var s := a + "," + b;
    var rest := a[k + 1..];
    FirstTopCommaOfConcat(a, "," + b, k);
    assert s == a + ("," + b);
    TopSegmentsCut(s, k);
    TopSegmentsCut(a, k);
    RestOfConcat(a, b, k);
    SplitPointDepth(a, k);
    DepthAppend(a[..k + 1], rest);
    ChoicesOfTopConcat(rest, b);
    var head := OptionToSeq(ChoiceOfPair(a[..k]));
    var restB := rest + "," + b;
    ChoicesOfCons(a[..k], TopSegments(restB));
    ChoicesOfCons(a[..k], TopSegments(rest));
    var x, y := ChoicesOf(TopSegments(rest)), ChoicesOf(TopSegments(b));
    AppendAssoc(head, x, y);
    calc {
      ChoicesOf(TopSegments(s));
      ChoicesOf([a[..k]] + TopSegments(restB));
      head + ChoicesOf(TopSegments(restB));
      head + (x + y);
      (head + x) + y;
      ChoicesOf([a[..k]] + TopSegments(rest)) + y;
      ChoicesOf(TopSegments(a)) + ChoicesOf(TopSegments(b));
    }
  }

  /** Cutting `a + "," + b` inside `a` leaves the rest of `a`, the comma and `b`. */
  lemma RestOfConcat(a: string, b: string, k: nat)
    requires k < |a|
    ensures (a + "," + b)[..k] == a[..k]
    ensures (a + "," + b)[k + 1..] == a[k + 1..] + "," + b
  {
  }

  /** The segments of a body with first split point `k`. */
  lemma TopSegmentsCut(s: string, k: nat)
    requires TopCommaFrom(s, 0) == Some(k)
    ensures TopSegments(s) == [s[..k]] + TopSegments(s[k + 1..])
  {
  }

  /** `ChoicesOfTopConcat` when `a` has no split point: `a` is one whole segment. */
  lemma ChoicesOfTopConcatUncut(a: string, b: string)
    requires Depth(a) == 0 && TopCommaFrom(a, 0).None?
    ensures ChoicesOf(TopSegments(a + "," + b)) == ChoicesOf(TopSegments(a)) + ChoicesOf(TopSegments(b))
  {
    var s := a + "," + b;
    FirstTopCommaAfterUncut(a, b);
    assert s[..|a|] == a && s[|a| + 1..] == b;
    assert TopSegments(s) == [a] + TopSegments(b);
    ChoicesOfCons(a, TopSegments(b));
    if a == [] {
      assert ChoiceOfPair(a) == None;
      assert ChoicesOf(TopSegments(a)) == [];
    } else {
      assert TopSegments(a) == [a];
      ChoicesOfCons(a, []);
      assert [a] + [] == [a];
      assert ChoicesOf(TopSegments(a)) == OptionToSeq(ChoiceOfPair(a));
    }
  }

  /** `TopCommaFrom` answers the first split point. */
  lemma TopCommaFromIs(s: string, k: nat)
    requires IsTopComma(s, k)
    requires forall j :: 0 <= j < k ==> !IsTopComma(s, j)
    ensures TopCommaFrom(s, 0) == Some(k)
  {
    TopCommaFromFirst(s, 0);
  }

  /** Appending text keeps the first split point of a prefix that has one. */
  lemma FirstTopCommaOfConcat(a: string, t: string, k: nat)
    requires TopCommaFrom(a, 0) == Some(k)
    ensures TopCommaFrom(a + t, 0) == Some(k)
  {
    TopCommaFromFirst(a, 0);
    forall j | 0 <= j <= k ensures IsTopComma(a + t, j) <==> IsTopComma(a, j) {
      TopCommaPrefix(a, t, j);
    }
    TopCommaFromIs(a + t, k);
  }

  /** After a part of depth zero without split points, the next comma is the first split point. */
  lemma FirstTopCommaAfterUncut(a: string, b: string)
    requires Depth(a) == 0 && TopCommaFrom(a, 0).None?
    ensures TopCommaFrom(a + "," + b, 0) == Some(|a|)
  {
    var s := a + "," + b;
    TopCommaFromFirst(a, 0);
    forall j | 0 <= j < |a| ensures !IsTopComma(s, j) {
      TopCommaPrefix(a, "," + b, j);
      assert s == a + ("," + b);
    }
    assert s[..|a|] == a;
    TopCommaFromIs(s, |a|);
  }

  /** A body without split points is one segment, whatever commas its brackets hold. */
  lemma SingleSegment(s: string)
    requires s != []
    requires forall j :: 0 <= j < |s| ==> !IsTopComma(s, j)
    ensures TopSegments(s) == [s]
  {
  }

  /**
   * The first '{' and the last '}' enclose the body, whatever lies between
   * them (further braces included) and whatever text surrounds them.
   */
  lemma BraceBodyBetween(before: string, body: string, after: string)
    requires '{' !in before && '}' !in after
    ensures BraceBody(before + "{" + body + "}" + after) == Some(body)
  {
    var open := before + "{";
    var close := "}" + after;
    var json := open + body + close;
    assert json == before + "{" + body + "}" + after;
    var a, b := |before|, |open| + |body|;
    assert json[a] == '{' && json[..a] == before;
    assert json[b] == '}' && json[b + 1..] == after;
    FindIsFirst(json, '{', a);
    RFindIsLast(json, '}', b);
    assert json[a + 1..b] == body;
  }

  /**
   * "Invalid JSON format" exactly when no '{' comes before a '}': one of them
   * is missing, or every '{' follows every '}'.
   */
  lemma BraceBodyNone(jsonStr: string)
    ensures BraceBody(jsonStr).None? <==> !OpensBeforeCloses(jsonStr, '{', '}')
  {
    FirstBeforeLast(jsonStr, '{', '}');
  }

  /**
   * A segment whose commas all sit inside its one bracket pair is not cut:
   * the commas of a value list never start a new entry.
   */
  lemma BracketedUncut(prefix: string, content: string)
    requires '[' !in prefix && ']' !in prefix && ',' !in prefix
    requires '[' !in content && ']' !in content
    ensures TopSegments(prefix + "[" + content + "]") == [prefix + "[" + content + "]"]
  {
    var seg := prefix + "[" + content + "]";
    var n := |prefix|;
    forall j | 0 <= j < |seg| ensures !IsTopComma(seg, j) {
      if j < n {
        assert seg[j] == prefix[j];
      } else if j == n {
        assert seg[j] == '[';
      } else if j < n + 1 + |content| {
        var m := j - n - 1;
        assert seg[..j] == prefix + "[" + content[..m];
        BracketInsideDepth(prefix, content, m);
      } else {
        assert seg[j] == ']';
      }
    }
    SingleSegment(seg);
  }

  /** Inside the bracket pair of `BracketedUncut` the depth is one. */
  lemma BracketInsideDepth(prefix: string, content: string, m: nat)
    requires '[' !in prefix && ']' !in prefix
    requires '[' !in content && ']' !in content && m <= |content|
    ensures Depth(prefix + "[" + content[..m]) == 1
  {
    assert '[' !in content[..m] && ']' !in content[..m] by {
      assert forall i :: 0 <= i < m ==> content[..m][i] == content[i];
    }
    NoBracketDepth(prefix);
    NoBracketDepth(content[..m]);
    DepthAppend(prefix, "[");
    DepthAppend(prefix + "[", content[..m]);
    assert Depth("[") == Depth([]) + BracketStep('[');
  }

  /**
   * One "key:lead[content]" segment, with a bracket- and comma-free key and
   * lead, is exactly one entry: the trimmed key and the non-empty trimmed
   * comma pieces of the content.
   */
  lemma OnePair(key: string, lead: string, content: string)
    requires ':' !in key && !AllTrimChars(key)
    requires '[' !in key && ']' !in key && ',' !in key
    requires '[' !in lead && ']' !in lead && ',' !in lead
    requires '[' !in content && ']' !in content
    ensures ChoicesOf(TopSegments(PairText(key, lead, content))) ==
              [Choice(TrimString(key), KeepTrimmed(SplitAll(content, ',')))]
  {
    var prefix := key + ":" + lead;
    var seg := PairText(key, lead, content);
    assert '[' !in prefix && ']' !in prefix && ',' !in prefix;
    BracketedUncut(prefix, content);
    PairChoice(key, lead, content);
    ChoicesOfCons(seg, []);
    assert [seg] + [] == [seg];
  }

  /** The entry of one "key:lead[content]" pair. */
  lemma PairChoice(key: string, lead: string, content: string)
    requires ':' !in key && !AllTrimChars(key) && '[' !in lead
    ensures ChoiceOfPair(PairText(key, lead, content)) ==
              Some(Choice(TrimString(key), KeepTrimmed(SplitAll(content, ','))))
  {
    var value := lead + "[" + content + "]";
    PairSplitsAtFirstColon(key, value);
    assert key + ":" + value == PairText(key, lead, content) by {
      var kc, open := key + ":", lead + "[";
      AppendAssoc(kc, open + content, "]");
      AppendAssoc(kc, open, content);
      AppendAssoc(kc, lead, "[");
    }
    ValuesBetweenBrackets(lead, content, "");
    assert lead + "[" + content + "]" + "" == value;
  }

  /** The text of one pair written as "key:lead[content]". */
  function PairText(key: string, lead: string, content: string): string {
    key + ":" + lead + "[" + content + "]"
  }

  /**
   * Two pairs separated by a top-level comma give two entries, in the order
   * they are written.
   */
  lemma TwoPairs(key1: string, lead1: string, content1: string,
                 key2: string, lead2: string, content2: string)
    requires ':' !in key1 && !AllTrimChars(key1) && '[' !in key1 && ']' !in key1 && ',' !in key1
    requires '[' !in lead1 && ']' !in lead1 && ',' !in lead1
    requires '[' !in content1 && ']' !in content1
    requires ':' !in key2 && !AllTrimChars(key2) && '[' !in key2 && ']' !in key2 && ',' !in key2
    requires '[' !in lead2 && ']' !in lead2 && ',' !in lead2
    requires '[' !in content2 && ']' !in content2
    ensures ChoicesOf(TopSegments(PairText(key1, lead1, content1) + "," + PairText(key2, lead2, content2))) ==
              [Choice(TrimString(key1), KeepTrimmed(SplitAll(content1, ','))),
               Choice(TrimString(key2), KeepTrimmed(SplitAll(content2, ',')))]
  {
    var first := PairText(key1, lead1, content1);
    var second := PairText(key2, lead2, content2);
    OnePair(key1, lead1, content1);
    OnePair(key2, lead2, content2);
    PairDepth(key1 + ":" + lead1, content1);
    ChoicesOfTopConcat(first, second);
  }

  /** A closed bracket pair after bracket-free text leaves the depth at zero. */
  lemma PairDepth(prefix: string, content: string)
    requires '[' !in prefix && ']' !in prefix
    requires '[' !in content && ']' !in content
    ensures Depth(prefix + "[" + content + "]") == 0
  {
    BracketInsideDepth(prefix, content, |content|);
    assert content[..|content|] == content;
    DepthAppend(prefix + "[" + content, "]");
    assert Depth("]") == Depth([]) + BracketStep(']');
  }

  /** Text without square brackets has depth zero. */
  lemma {:induction false} NoBracketDepth(s: string)
    requires '[' !in s && ']' !in s
    ensures Depth(s) == 0
    decreases |s|
  {
    if s != [] {
      NoBracketDepth(s[..|s| - 1]);
    }
  }

  // ---------------------------------------------------------------------
  // The steps of the window's scanning loop

  /**
   * The bracket depth of `body[lo..hi]`, counted by index as the loop
   * counts it; `DepthBetweenIsDepth` ties it to `Depth`.
   */
  function DepthBetween(body: string, lo: nat, hi: nat): int
    requires lo <= hi <= |body|
    decreases hi
  {
    if hi == lo then 0 else DepthBetween(body, lo, hi - 1) + BracketStep(body[hi - 1])
  }

  lemma {:induction false} DepthBetweenIsDepth(body: string, lo: nat, hi: nat)
    requires lo <= hi <= |body|
    ensures DepthBetween(body, lo, hi) == Depth(body[lo..hi])
    decreases hi
  {
    if hi > lo {
      DepthBetweenIsDepth(body, lo, hi - 1);
      assert body[lo..hi][..hi - 1 - lo] == body[lo..hi - 1];
    } else {
      assert body[lo..hi] == [];
    }
  }

  /** No position of `body[lo..hi]` is a comma read at depth zero. */
  predicate NoCutBetween(body: string, lo: nat, hi: nat)
    requires lo <= hi <= |body|
    decreases hi
  {
    hi == lo || (NoCutBetween(body, lo, hi - 1) && !(body[hi - 1] == ',' && DepthBetween(body, lo, hi - 1) == 0))
  }

  /** `NoCutBetween` says there is no split point in the first `hi - lo` positions of `body[lo..]`. */
  lemma {:induction false} NoCutBetweenAll(body: string, lo: nat, hi: nat)
    requires lo <= hi <= |body|
    requires NoCutBetween(body, lo, hi)
    ensures forall j :: 0 <= j < hi - lo ==> !IsTopComma(body[lo..], j)
    decreases hi
  {
    if hi > lo {
      NoCutBetweenAll(body, lo, hi - 1);
      var j := hi - 1 - lo;
      assert body[lo..][..j] == body[lo..hi - 1];
      DepthBetweenIsDepth(body, lo, hi - 1);
      assert !IsTopComma(body[lo..], j);
    }
  }

  /**
   * A comma at depth zero after a stretch without split points is the first
   * split point of the rest: the stretch is one segment, the rest follows.
   */
  lemma ScanCut(body: string, lastPos: nat, pos: nat)
    requires lastPos <= pos < |body| && body[pos] == ','
    requires DepthBetween(body, lastPos, pos) == 0
    requires NoCutBetween(body, lastPos, pos)
    ensures TopSegments(body[lastPos..]) == [body[lastPos..pos]] + TopSegments(body[pos + 1..])
  {
    var rest := body[lastPos..];
    var k := pos - lastPos;
    NoCutBetweenAll(body, lastPos, pos);
    DepthBetweenIsDepth(body, lastPos, pos);
    assert rest[..k] == body[lastPos..pos];
    assert IsTopComma(rest, k);
    TopCommaFromIs(rest, k);
    TopSegmentsCut(rest, k);
    assert rest[k + 1..] == body[pos + 1..];
  }

  /**
   * A cut during the scan: the segments already taken, followed by the one
   * that ends at `pos`, are followed by the segments of the rest.
   */
  lemma ScanCutAfter(body: string, lastPos: nat, pos: nat, segments: seq<string>)
    requires lastPos <= pos < |body| && body[pos] == ','
    requires DepthBetween(body, lastPos, pos) == 0
    requires NoCutBetween(body, lastPos, pos)
    requires TopSegments(body) == segments + TopSegments(body[lastPos..])
    ensures TopSegments(body) == (segments + [body[lastPos..pos]]) + TopSegments(body[pos + 1..])
  {
    ScanCut(body, lastPos, pos);
    AppendAssoc(segments, [body[lastPos..pos]], TopSegments(body[pos + 1..]));
  }

  /** One character read without a cut: the depth takes its step and there is still no cut. */
  lemma ScanStep(body: string, lastPos: nat, pos: nat)
    requires lastPos <= pos < |body|
    requires NoCutBetween(body, lastPos, pos)
    requires !(body[pos] == ',' && DepthBetween(body, lastPos, pos) == 0)
    ensures DepthBetween(body, lastPos, pos + 1) == DepthBetween(body, lastPos, pos) + BracketStep(body[pos])
    ensures NoCutBetween(body, lastPos, pos + 1)
  {
  }

  /** Right after a cut the depth restarts at zero and there is no cut yet. */
  lemma ScanRestart(body: string, pos: nat)
    requires pos <= |body|
    ensures DepthBetween(body, pos, pos) == 0 && NoCutBetween(body, pos, pos)
  {
  }

  /** At the end of the scan, what is left is one last segment, or nothing. */
  lemma ScanEnd(body: string, lastPos: nat)
    requires lastPos <= |body|
    requires NoCutBetween(body, lastPos, |body|)
    ensures TopSegments(body[lastPos..]) == if lastPos < |body| then [body[lastPos..]] else []
  {
    if lastPos < |body| {
      NoCutBetweenAll(body, lastPos, |body|);
      SingleSegment(body[lastPos..]);
    }
  }

  /** The entries of one more segment follow those of the segments before it. */
  lemma {:induction false} ChoicesOfSnoc(segments: seq<string>, segment: string)
    ensures ChoicesOf(segments + [segment]) == ChoicesOf(segments) + OptionToSeq(ChoiceOfPair(segment))
    decreases |segments|
  {
    if segments == [] {
      assert [] + [segment] == [segment] + [];
      ChoicesOfCons(segment, []);
    } else {
      var head := OptionToSeq(ChoiceOfPair(segments[0]));
      assert (segments + [segment])[1..] == segments[1..] + [segment];
      ChoicesOfSnoc(segments[1..], segment);
      AppendAssoc(head, ChoicesOf(segments[1..]), OptionToSeq(ChoiceOfPair(segment)));
    }
  }

  // ---------------------------------------------------------------------
  // The combo-box mappings

  /** `hresult_invalid_argument`, carrying its message. */
  datatype HResultError = InvalidArgument(message: string)

  /** `GetSelectedNewLocationId`: indices 0 to 10, anything else throws. */
  function GetSelectedNewLocationId(selectedIndex: int): (r: Result<PickerLocationId, HResultError>)
    ensures r.Success? <==> 0 <= selectedIndex <= 10
    ensures r.Success? ==> LocationIndex(r.value) == Some(selectedIndex)
    ensures r.Failure? ==> r.error == InvalidArgument("Invalid location selected")
  {
    match LocationAt(selectedIndex)
    case Some(loc) =>
      LocationIndexOfLocationAt(selectedIndex);
      Success(loc)
    case None => Failure(InvalidArgument("Invalid location selected"))
  }

  /** `GetSelectedNewViewMode`: indices 0 to 2, anything else throws. */
  function GetSelectedNewViewMode(selectedIndex: int): (r: Result<PickerViewMode, HResultError>)
    ensures r.Success? <==> 0 <= selectedIndex <= 2
    ensures r.Success? ==> ViewModeIndex(r.value) == Some(selectedIndex)
    ensures r.Failure? ==> r.error == InvalidArgument("Invalid view mode selected")
  {
    match ViewModeAt(selectedIndex)
    case Some(mode) =>
      ViewModeIndexOfViewModeAt(selectedIndex);
      Success(mode)
    case None => Failure(InvalidArgument("Invalid view mode selected"))
  }

  /**
   * `FileNameFromPath`: empty for an empty path, otherwise the last path
   * component as the platform's path library (`fileName`) computes it.
   */
  function FileNameFromPath(path: string, fileName: string -> string): (r: string)
    ensures path == [] ==> r == []
  {
    if path == [] then [] else fileName(path)
  }

  /**
   * The scanning loop of `DeserizeJsonInsertionOrder` over the body between
   * the braces: `bracketDepth` counts '[' minus ']' since the start, and a
   * comma read while it is zero ends the pair that began at `lastPos`. The
   * result is the parse of the top-level segments.
   */
  method ScanTopLevelPairs(body: string) returns (orderedChoices: seq<Choice>)
    ensures orderedChoices == ChoicesOf(TopSegments(body))
  {
    orderedChoices := [];
    var pos: nat := 0;
    var bracketDepth: int := 0;
    var lastPos: nat := 0;
    assert body[0..] == body;

    ghost var segments: seq<string> := [];
    while pos < |body|
      invariant lastPos <= pos <= |body|
      invariant bracketDepth == DepthBetween(body, lastPos, pos)
      invariant NoCutBetween(body, lastPos, pos)
      invariant TopSegments(body) == segments + TopSegments(body[lastPos..])
      invariant orderedChoices == ChoicesOf(segments)
    {
      var ch := body[pos];
      if ch == '[' {
        ScanStep(body, lastPos, pos);
        bracketDepth := bracketDepth + 1;
      } else if ch == ']' {
        ScanStep(body, lastPos, pos);
        bracketDepth := bracketDepth - 1;
      } else if ch == ',' && bracketDepth == 0 {
        // A top-level comma: the segment since the last cut is one pair.
        orderedChoices, segments := TakePair(body, lastPos, pos, segments, orderedChoices);
        lastPos := pos + 1;
        ScanRestart(body, lastPos);
      } else {
        ScanStep(body, lastPos, pos);
      }
      pos := pos + 1;
    }

    orderedChoices := TakeLast(body, lastPos, segments, orderedChoices);
  }

  /** After the scan: the last pair, unless the body ended with a cut. */
  method TakeLast(body: string, lastPos: nat, ghost segments: seq<string>, orderedChoices: seq<Choice>)
    returns (updated: seq<Choice>)
    requires lastPos <= |body|
    requires NoCutBetween(body, lastPos, |body|)
    requires TopSegments(body) == segments + TopSegments(body[lastPos..])
    requires orderedChoices == ChoicesOf(segments)
    ensures updated == ChoicesOf(TopSegments(body))
  {
    ScanEnd(body, lastPos);
    if lastPos < |body| {
      var pair := body[lastPos..];
      ChoicesOfSnoc(segments, pair);
      updated := AppendChoiceFromJsonPair(pair, orderedChoices);
    } else {
      assert segments + [] == segments;
      updated := orderedChoices;
    }
  }

  /**
   * The work at a top-level comma: the pair since the last cut is parsed
   * and appended, and the segments taken so far grow by that pair, so that
   * the segments of the rest of the body follow them.
   */
  method TakePair(body: string, lastPos: nat, pos: nat, ghost segments: seq<string>, orderedChoices: seq<Choice>)
    returns (updated: seq<Choice>, ghost taken: seq<string>)
    requires lastPos <= pos < |body| && body[pos] == ','
    requires DepthBetween(body, lastPos, pos) == 0
    requires NoCutBetween(body, lastPos, pos)
    requires TopSegments(body) == segments + TopSegments(body[lastPos..])
    requires orderedChoices == ChoicesOf(segments)
    ensures TopSegments(body) == taken + TopSegments(body[pos + 1..])
    ensures updated == ChoicesOf(taken)
  {
    var pair := body[lastPos..pos];
    ScanCutAfter(body, lastPos, pos, segments);
    ChoicesOfSnoc(segments, pair);
    updated := AppendChoiceFromJsonPair(pair, orderedChoices);
    taken := segments + [pair];
  }

  // ---------------------------------------------------------------------
  // The window state: the results text block

  class MainWindow {
    /** The text shown by the results text block, newest entry first. */
    var resultsText: string

    constructor (initialText: string)
      ensures resultsText == initialText
    {
      resultsText := initialText;
    }

    /** `LogResult`, with the local time of day passed in. */
    method LogResult(now: TimeOfDay, message: string)
      requires now.Valid()
      modifies this
      ensures resultsText == Logged(now, [message], old(resultsText))
      ensures resultsText == LogLine(now, message) + old(resultsText)
    {
      var newEntry := "[" + FormatTime(now) + "] " + message + "\n" + resultsText;
      resultsText := newEntry;
    }

    /**
     * `DeserizeJsonInsertionOrder`. The caller's string, taken by reference
     * and overwritten with the body between the braces, is returned as
     * `jsonStrAfter`. Every log line of one call uses the time `now`.
     */
    method DeserizeJsonInsertionOrder(jsonStr: string, now: TimeOfDay)
      returns (results: seq<Choice>, jsonStrAfter: string)
      requires now.Valid()
      modifies this
      ensures ParseChoices(jsonStr).None? ==>
                results == [] && jsonStrAfter == jsonStr
                && resultsText == Logged(now, ["Invalid JSON format"], old(resultsText))
      ensures ParseChoices(jsonStr).Some? ==>
                results == ParseChoices(jsonStr).value && jsonStrAfter == BraceBody(jsonStr).value
                && resultsText == Logged(now, InsertionMessages(results), old(resultsText))
    {
      var start := Find(jsonStr, '{');
      var end := RFind(jsonStr, '}');
      if start.None? || end.None? || start.value >= end.value {
        LogResult(now, "Invalid JSON format");
        return [], jsonStr;
      }

      jsonStrAfter := jsonStr[start.value + 1..end.value];
      var body := jsonStrAfter;

      var orderedChoices := ScanTopLevelPairs(body);
      assert BraceBody(jsonStr) == Some(body);
      results := InsertChoices(orderedChoices, now);
    }

    /**
     * The closing loop of `DeserizeJsonInsertionOrder`: every entry is copied
     * into the result, in order, and one "Inserting choice" line is logged
     * for it.
     */
    method InsertChoices(orderedChoices: seq<Choice>, now: TimeOfDay) returns (results: seq<Choice>)
      requires now.Valid()
      modifies this
      ensures results == orderedChoices
      ensures resultsText == Logged(now, InsertionMessages(orderedChoices), old(resultsText))
    {
      ghost var messages := InsertionMessages(orderedChoices);
      results := [];
      for i := 0 to |orderedChoices|
        invariant results == orderedChoices[..i]
        invariant resultsText == Logged(now, messages[..i], old(resultsText))
      {
        var choice := orderedChoices[i];
        var extensions: seq<string> := [];
        for e := 0 to |choice.values|
          invariant extensions == choice.values[..e]
        {
          extensions := extensions + [choice.values[e]];
        }
        assert choice.values[..|choice.values|] == choice.values;
        PrefixSnoc(orderedChoices, i);
        results := results + [Choice(choice.key, extensions)];
        assert messages[i] == "Inserting choice: " + choice.key;
        LogResult(now, "Inserting choice: " + choice.key);
        LoggedStep(now, messages, i, old(resultsText));
      }
      assert messages[..|orderedChoices|] == messages;
      assert orderedChoices[..|orderedChoices|] == orderedChoices;
    }
  }
}
