/**
 * The C# window: its result log, the two combo-box mappings with their
 * `InvalidOperationException`, and the walk of `DeserizlizeJsonWithInsertionOrder`
 * over an already parsed JSON document. The walk checks the shape of the
 * document (an object whose properties are arrays of strings) and yields
 * one (name, extensions) pair per property in document order, dropping
 * blank extensions; the first shape error ends it with an `ArgumentException`.
 */
module CsWindow {
  import opened Common
  import opened PickerEnums
  import opened ResultLog
  import opened CsText

  // ---------------------------------------------------------------------
  // The parsed document and the walk over it

  /** A parsed JSON value; object properties keep their document order (and duplicates). */
  datatype Json =
    | JNull
    | JBool(b: bool)
    | JNumber(literal: string)
    | JString(str: string)
    | JArray(items: seq<Json>)
    | JObject(properties: seq<Property>)

  datatype Property = Property(name: string, value: Json)

  /** One yielded pair: a choice name and its extensions. */
  datatype FileTypeChoice = FileTypeChoice(name: string, extensions: seq<string>)

  /** What ends the walk early: the parser's `JsonException` or an `ArgumentException`. */
  datatype DeserializeError =
    | InvalidJson
    | ArgumentException(message: string, paramName: string)

  const ParamName: string := "choicesJson"

  const NotAnObjectMessage: string := "Expected a JSON object of file type choices."

  function NotAnArrayMessage(name: string): string {
    "Value for '" + name + "' must be an array of strings."
  }

  function NotAStringMessage(name: string): string {
    "All extensions for '" + name + "' must be strings."
  }

  /** The pairs yielded so far and, when the walk threw, what it threw. */
  datatype Walk = Walk(yielded: seq<FileTypeChoice>, failure: Option<DeserializeError>)

  /** A string extension is kept unless it is null, empty or white space. */
  function KeepExtension(extension: string): (r: seq<string>)
    ensures r == [] <==> AllWhiteSpace(extension)
    ensures r != [] ==> r == [extension]
  {
    if AllWhiteSpace(extension) then [] else [extension]
  }

  /**
   * The extensions of the array held by property `name`: the non-blank
   * strings in array order, or the exception for an element that is not a
   * string.
   */
  function ExtensionsOf(name: string, items: seq<Json>): (r: Result<seq<string>, DeserializeError>)
    ensures r.Success? <==> forall i :: 0 <= i < |items| ==> items[i].JString?
    ensures r.Failure? ==> r.error == ArgumentException(NotAStringMessage(name), ParamName)
    ensures r.Success? ==> forall k :: 0 <= k < |r.value| ==> !AllWhiteSpace(r.value[k])
    decreases |items|
  {
    if items == [] then Success([])
    else
      var init, last := items[..|items| - 1], items[|items| - 1];
      match ExtensionsOf(name, init)
      case Failure(e) => Failure(e)
      case Success(extensions) =>
        if last.JString? then Success(extensions + KeepExtension(last.str))
        else Failure(ArgumentException(NotAStringMessage(name), ParamName))
  }

  /** The pair of one property, or the exception its value raises. */
  function ChoiceOfProperty(property: Property): (r: Result<FileTypeChoice, DeserializeError>)
    ensures r.Success? <==> property.value.JArray? && ExtensionsOf(property.name, property.value.items).Success?
    ensures r.Success? ==> r.value == FileTypeChoice(property.name, ExtensionsOf(property.name, property.value.items).value)
    ensures !property.value.JArray? ==> r == Failure(ArgumentException(NotAnArrayMessage(property.name), ParamName))
  {
    match property.value
    case JArray(items) =>
      (match ExtensionsOf(property.name, items)
       case Success(extensions) => Success(FileTypeChoice(property.name, extensions))
       case Failure(e) => Failure(e))
    case _ => Failure(ArgumentException(NotAnArrayMessage(property.name), ParamName))
  }

  /**
   * The walk over the properties of the root object: pairs in document order
   * up to the first property that raises, which ends the walk.
   */
  function WalkProperties(properties: seq<Property>): (w: Walk)
    ensures |w.yielded| <= |properties|
    ensures forall i :: 0 <= i < |w.yielded| ==> ChoiceOfProperty(properties[i]) == Success(w.yielded[i])
    ensures w.failure.None? <==> |w.yielded| == |properties|
    ensures w.failure.Some? ==> ChoiceOfProperty(properties[|w.yielded|]) == Failure(w.failure.value)
    decreases |properties|
  {
    if properties == [] then Walk([], None)
    else
      match ChoiceOfProperty(properties[0])
      case Failure(e) => Walk([], Some(e))
      case Success(choice) =>
        var rest := WalkProperties(properties[1..]);
        Walk([choice] + rest.yielded, rest.failure)
  }

  /**
   * `DeserizlizeJsonWithInsertionOrder` as a whole, with `JsonDocument.Parse`
   * as the parameter `parse` (`None` where it throws).
   */
  function Deserialize(choicesJson: string, parse: string -> Option<Json>): (w: Walk)
    ensures AllWhiteSpace(choicesJson) ==> w == Walk([], None)
    ensures !AllWhiteSpace(choicesJson) && parse(choicesJson).None? ==> w == Walk([], Some(InvalidJson))
    ensures !AllWhiteSpace(choicesJson) && parse(choicesJson).Some? && !parse(choicesJson).value.JObject? ==>
              w == Walk([], Some(ArgumentException(NotAnObjectMessage, ParamName)))
    ensures !AllWhiteSpace(choicesJson) && parse(choicesJson).Some? && parse(choicesJson).value.JObject? ==>
              w == WalkProperties(parse(choicesJson).value.properties)
  {
    if AllWhiteSpace(choicesJson) then Walk([], None)
    else
      match parse(choicesJson)
      case None => Walk([], Some(InvalidJson))
      case Some(root) =>
        if root.JObject? then WalkProperties(root.properties)
        else Walk([], Some(ArgumentException(NotAnObjectMessage, ParamName)))
  }

  /** The log line written just before a pair is yielded. */
  function DeserializedMessage(choice: FileTypeChoice): (r: string)
    ensures |r| >= 21 + |choice.name| + 18
    ensures r[..21] == "Deserialized choice: " && r[21..21 + |choice.name|] == choice.name
    ensures r[21 + |choice.name|..21 + |choice.name| + 18] == " with extensions: "
    ensures r[21 + |choice.name| + 18..] == Join(choice.extensions, ", ")
    ensures choice.extensions == [] ==> |r| == 21 + |choice.name| + 18
  {
    "Deserialized choice: " + choice.name + " with extensions: " + Join(choice.extensions, ", ")
  }

  function DeserializedMessages(choices: seq<FileTypeChoice>): (r: seq<string>)
    ensures |r| == |choices|
  {
    seq(|choices|, i requires 0 <= i < |choices| => DeserializedMessage(choices[i]))
  }

  // ---------------------------------------------------------------------
  // Properties of the walk

  /** The walk is determined by its characterisation: the successes before the first failure. */
  lemma {:induction false} WalkPropertiesUnique(properties: seq<Property>, yielded: seq<FileTypeChoice>, failure: Option<DeserializeError>)
    requires |yielded| <= |properties|
    requires forall i :: 0 <= i < |yielded| ==> ChoiceOfProperty(properties[i]) == Success(yielded[i])
    requires failure.None? <==> |yielded| == |properties|
    requires failure.Some? ==> ChoiceOfProperty(properties[|yielded|]) == Failure(failure.value)
    ensures WalkProperties(properties) == Walk(yielded, failure)
    decreases |properties|
  {
    if properties != [] && yielded != [] {
      WalkPropertiesUnique(properties[1..], yielded[1..], failure);
      assert [yielded[0]] + yielded[1..] == yielded;
    }
  }

  /**
   * One step of the enumeration: after a prefix walked without failure, the
   * next property either extends the walk by its entry or ends the whole
   * walk with its error.
   */
  lemma WalkPrefixStep(properties: seq<Property>, i: nat, yielded: seq<FileTypeChoice>)
    requires i < |properties|
    requires WalkProperties(properties[..i]) == Walk(yielded, None)
    ensures ChoiceOfProperty(properties[i]).Success? ==>
              WalkProperties(properties[..i + 1]) == Walk(yielded + [ChoiceOfProperty(properties[i]).value], None)
    ensures ChoiceOfProperty(properties[i]).Failure? ==>
              WalkProperties(properties) == Walk(yielded, Some(ChoiceOfProperty(properties[i]).error))
  {
    if ChoiceOfProperty(properties[i]).Success? {
      PrefixSnoc(properties, i);
      WalkThenOne(properties[..i], properties[i]);
    } else {
      PrefixSuffix(properties, i);
      WalkThenFailure(properties[..i], properties[i..]);
    }
  }

  /** A walk without failure followed by one property that yields an entry. */
  lemma WalkThenOne(a: seq<Property>, p: Property)
    requires WalkProperties(a).failure.None? && ChoiceOfProperty(p).Success?
    ensures WalkProperties(a + [p]) == Walk(WalkProperties(a).yielded + [ChoiceOfProperty(p).value], None)
  {
    WalkPropertiesAppend(a, [p]);
    assert [p][1..] == [];
  }

  /** A walk without failure followed by properties whose first one fails. */
  lemma WalkThenFailure(a: seq<Property>, b: seq<Property>)
    requires WalkProperties(a).failure.None? && b != [] && ChoiceOfProperty(b[0]).Failure?
    ensures WalkProperties(a + b) == Walk(WalkProperties(a).yielded, Some(ChoiceOfProperty(b[0]).error))
  {
    WalkPropertiesAppend(a, b);
    assert WalkProperties(a).yielded + [] == WalkProperties(a).yielded;
  }

  /**
   * DOCUMENT ORDER. Walking two runs of properties one after the other is
   * walking the first and, unless it threw, continuing with the second.
   */
  lemma {:induction false} WalkPropertiesAppend(a: seq<Property>, b: seq<Property>)
    ensures WalkProperties(a + b) ==
              if WalkProperties(a).failure.Some? then WalkProperties(a)
              else Walk(WalkProperties(a).yielded + WalkProperties(b).yielded, WalkProperties(b).failure)
    decreases |a|
  {
    if a == [] {
      assert a + b == b;
    } else {
      assert (a + b)[0] == a[0] && (a + b)[1..] == a[1..] + b;
      WalkPropertiesAppend(a[1..], b);
      var first := ChoiceOfProperty(a[0]);
      if first.Success? {
        var wa, wb := WalkProperties(a[1..]), WalkProperties(b);
        assert WalkProperties(a) == Walk([first.value] + wa.yielded, wa.failure);
        if wa.failure.None? {
          AppendAssoc([first.value], wa.yielded, wb.yielded);
        }
      }
    }
  }

  /** A walk that does not throw yields one pair per property, named after it, in order. */
  lemma WalkNames(properties: seq<Property>)
    requires WalkProperties(properties).failure.None?
    ensures |WalkProperties(properties).yielded| == |properties|
    ensures forall i :: 0 <= i < |properties| ==> WalkProperties(properties).yielded[i].name == properties[i].name
  {
  }

  /**
   * The walk throws exactly when some property is not an array of strings.
   */
  lemma WalkFails(properties: seq<Property>)
    ensures WalkProperties(properties).failure.Some? <==>
              exists i :: 0 <= i < |properties| && ChoiceOfProperty(properties[i]).Failure?
  {
    var w := WalkProperties(properties);
    if w.failure.Some? {
      assert ChoiceOfProperty(properties[|w.yielded|]).Failure?;
    }
  }

  /** The extensions of two runs of elements are those of the first followed by those of the second. */
  lemma {:induction false} ExtensionsAppend(name: string, a: seq<Json>, b: seq<Json>)
    requires ExtensionsOf(name, a).Success? && ExtensionsOf(name, b).Success?
    ensures ExtensionsOf(name, a + b) == Success(ExtensionsOf(name, a).value + ExtensionsOf(name, b).value)
    decreases |b|
  {
    if b == [] {
      assert a + b == a;
      assert ExtensionsOf(name, a).value + [] == ExtensionsOf(name, a).value;
    } else {
      var n := |b|;
      assert (a + b)[..|a + b| - 1] == a + b[..n - 1];
      assert (a + b)[|a + b| - 1] == b[n - 1];
      ExtensionsAppend(name, a, b[..n - 1]);
      var ea, eb := ExtensionsOf(name, a).value, ExtensionsOf(name, b[..n - 1]).value;
      var last := KeepExtension(b[n - 1].str);
      assert (ea + eb) + last == ea + (eb + last);
    }
  }

  /**
   * A string is kept exactly when it is one of the elements and not blank:
   * blank strings are dropped, the others are kept unchanged.
   */
  lemma {:induction false} ExtensionsExact(name: string, items: seq<Json>)
    requires ExtensionsOf(name, items).Success?
    ensures forall e :: e in ExtensionsOf(name, items).value <==> JString(e) in items && !AllWhiteSpace(e)
    decreases |items|
  {
    if items != [] {
      var n := |items|;
      var init, last := items[..n - 1], items[n - 1];
      ExtensionsExact(name, init);
      var before := ExtensionsOf(name, init).value;
      assert ExtensionsOf(name, items).value == before + KeepExtension(last.str);
      assert items == init + [last];
      forall e ensures e in ExtensionsOf(name, items).value <==> JString(e) in items && !AllWhiteSpace(e) {
        assert e in before + KeepExtension(last.str) <==> e in before || e in KeepExtension(last.str);
        assert e in KeepExtension(last.str) <==> e == last.str && !AllWhiteSpace(e);
        assert JString(e) in items <==> JString(e) in init || JString(e) == last;
      }
    }
  }

  /** Yielding one more pair puts its log line in front of the earlier ones. */
  lemma LoggedDeserializedSnoc(now: TimeOfDay, choices: seq<FileTypeChoice>, choice: FileTypeChoice, buffer: string)
    requires now.Valid()
    ensures Logged(now, DeserializedMessages(choices + [choice]), buffer) ==
              LogLine(now, DeserializedMessage(choice)) + Logged(now, DeserializedMessages(choices), buffer)
  {
    var messages := DeserializedMessages(choices + [choice]);
    assert messages == DeserializedMessages(choices) + [DeserializedMessage(choice)];
    assert messages[..|messages| - 1] == DeserializedMessages(choices);
  }

  // ---------------------------------------------------------------------
  // The combo-box mappings

  /** `InvalidOperationException`, carrying its message. */
  datatype InvalidOperation = InvalidOperationException(message: string)

  /** `GetSelectedNewLocationId`: indices 0 to 10, anything else throws. */
  function GetSelectedNewLocationId(selectedIndex: int): (r: Result<PickerLocationId, InvalidOperation>)
    ensures r.Success? <==> 0 <= selectedIndex <= 10
    ensures r.Success? ==> LocationIndex(r.value) == Some(selectedIndex)
    ensures r.Failure? ==> r.error == InvalidOperationException("Invalid location selected")
  {
    match LocationAt(selectedIndex)
    case Some(loc) =>
      LocationIndexOfLocationAt(selectedIndex);
      Success(loc)
    case None => Failure(InvalidOperationException("Invalid location selected"))
  }

  /** `GetSelectedNewViewMode`: indices 0 to 2, anything else throws. */
  function GetSelectedNewViewMode(selectedIndex: int): (r: Result<PickerViewMode, InvalidOperation>)
    ensures r.Success? <==> 0 <= selectedIndex <= 2
    ensures r.Success? ==> ViewModeIndex(r.value) == Some(selectedIndex)
    ensures r.Failure? ==> r.error == InvalidOperationException("Invalid view mode selected")
  {
    match ViewModeAt(selectedIndex)
    case Some(mode) =>
      ViewModeIndexOfViewModeAt(selectedIndex);
      Success(mode)
    case None => Failure(InvalidOperationException("Invalid view mode selected"))
  }

  // ---------------------------------------------------------------------
  // The inner loop of the walk

  /** The loop over the elements of one property's array. */
  method ReadExtensions(name: string, items: seq<Json>) returns (r: Result<seq<string>, DeserializeError>)
    ensures r == ExtensionsOf(name, items)
  {
    var extensions: seq<string> := [];
    assert items[..0] == [];
    for k := 0 to |items|
      invariant ExtensionsOf(name, items[..k]) == Success(extensions)
    {
      var item := items[k];
      assert items[..k + 1][..k] == items[..k] && items[..k + 1][k] == item;
      if !item.JString? {
        assert !items[..k + 1][k].JString?;
        ExtensionsPrefixFails(name, items, k + 1);
        return Failure(ArgumentException(NotAStringMessage(name), ParamName));
      }
      var extension := item.str;
      assert ExtensionsOf(name, items[..k + 1]) == Success(extensions + KeepExtension(extension));
      if !AllWhiteSpace(extension) {
        extensions := extensions + [extension];
      } else {
        assert extensions + KeepExtension(extension) == extensions;
      }
    }
    assert items[..|items|] == items;
    return Success(extensions);
  }

  /** Once a prefix of the elements fails, all of them do. */
  lemma ExtensionsPrefixFails(name: string, items: seq<Json>, k: nat)
    requires k <= |items| && ExtensionsOf(name, items[..k]).Failure?
    ensures ExtensionsOf(name, items) == Failure(ArgumentException(NotAStringMessage(name), ParamName))
  {
    var i :| 0 <= i < k && !items[..k][i].JString?;
    assert items[i] == items[..k][i];
  }

  // ---------------------------------------------------------------------
  // The window state: the results text block

  class MainWindow {
    /** `ResultsTextBlock.Text`, newest entry first. */
    var resultsText: string

    constructor (initialText: string)
      ensures resultsText == initialText
    {
      resultsText := initialText;
    }

    /** `LogResult`, with `DateTime.Now` passed in as `now`. */
    method LogResult(now: TimeOfDay, message: string)
      requires now.Valid()
      modifies this
      ensures resultsText == Logged(now, [message], old(resultsText))
      ensures resultsText == LogLine(now, message) + old(resultsText)
    {
      resultsText := "[" + FormatTime(now) + "] " + message + "\n" + resultsText;
    }

    /**
     * `DeserizlizeJsonWithInsertionOrder`, enumerated to the end by its
     * caller: the pairs it yields and what it throws, if anything. One log
     * line is written per pair, before the pair is yielded, all at `now`.
     */
    method DeserizlizeJsonWithInsertionOrder(choicesJson: string, parse: string -> Option<Json>, now: TimeOfDay)
      returns (yielded: seq<FileTypeChoice>, failure: Option<DeserializeError>)
      requires now.Valid()
      modifies this
      ensures Walk(yielded, failure) == Deserialize(choicesJson, parse)
      ensures resultsText == Logged(now, DeserializedMessages(yielded), old(resultsText))
    {
      yielded := [];
      if AllWhiteSpace(choicesJson) {
        return yielded, None;
      }
      var document := parse(choicesJson);
      if document.None? {
        return yielded, Some(InvalidJson);
      }
      var root := document.value;
      if !root.JObject? {
        return yielded, Some(ArgumentException(NotAnObjectMessage, ParamName));
      }

      yielded, failure := EnumerateChoices(root.properties, now);
    }

    /**
     * The `foreach` over the properties of the root object: each property
     * either raises, which ends the walk, or is logged and yielded.
     */
    method EnumerateChoices(properties: seq<Property>, now: TimeOfDay)
      returns (yielded: seq<FileTypeChoice>, failure: Option<DeserializeError>)
      requires now.Valid()
      modifies this
      ensures Walk(yielded, failure) == WalkProperties(properties)
      ensures resultsText == Logged(now, DeserializedMessages(yielded), old(resultsText))
    {
      yielded := [];
      assert properties[..0] == [];
      for i := 0 to |properties|
        invariant WalkProperties(properties[..i]) == Walk(yielded, None)
        invariant resultsText == Logged(now, DeserializedMessages(yielded), old(resultsText))
      {
        var property := properties[i];
        WalkPrefixStep(properties, i, yielded);
        if !property.value.JArray? {
          failure := Some(ArgumentException(NotAnArrayMessage(property.name), ParamName));
          return;
        }
        var extensions := ReadExtensions(property.name, property.value.items);
        if extensions.Failure? {
          failure := Some(extensions.error);
          return;
        }
        var choice := FileTypeChoice(property.name, extensions.value);
        LogResult(now, DeserializedMessage(choice));
        LoggedDeserializedSnoc(now, yielded, choice, old(resultsText));
        yielded := yielded + [choice];
      }
      failure := None;
      assert properties[..|properties|] == properties;
    }
  }
}
