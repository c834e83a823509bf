# StoragePickers sample: the parsing and logging core of the two windows

The StoragePickers sample has two implementations of one window, one in C++
and one in C#. Each window drives the file and folder pickers. Before it opens
a picker, it turns what the user typed into picker settings:

- **Filters.** A comma-separated filter text becomes a list of file-type
  filters.
- **File-type choices.** A text such as `{"Images": [".png", ".jpg"], "Docs": [".txt"]}`
  becomes an ordered list of (name, extensions) entries. The order is the
  order of the text.
- **Drop-downs.** The index chosen in the start-location drop-down and in the
  view-mode drop-down becomes a picker enumeration value. An index outside
  the list raises an error.

Of these steps, only the two file-type-choice parsers write to the window's
results text block. Each line they write is timestamped and goes in front of
what is already there. The filter and drop-down steps log nothing. The picker
handlers, which are not modelled, log the picked paths and their errors.

This project models those operations in Dafny and proves what they promise.
The modules are:

- `Common`: option and result types, `find`/`rfind`, a plain split at every
  delimiter, and join.
- `PickerEnums`: the location and view-mode enumerations and the two drop-down
  tables. Both windows share them.
- `ResultLog`: the `HH:mm:ss` timestamp and the log line. The buffer after a
  series of log calls is the `Logged` fold.
- `CppText`: the C++ `TrimString`, the `std::getline` comma loop,
  `GetFileFilters`, and the parse of one `key: [values]` pair
  (`AppendChoiceFromJsonPair`).
- `CppWindow`: the C++ `MainWindow` class and its text block. It holds the
  order-preserving parser `DeserizeJsonInsertionOrder` and the two drop-down
  mappings.
  - The parser splits at commas read at bracket depth zero. The function
    `TopSegments` states this split, and the scanning loop is proved equal
    to it.
- `CsText`: the .NET `Char.IsWhiteSpace` set, `Trim`, and the C#
  `GetFileFilters`.
- `CsWindow`: the C# `MainWindow` class and its text block. It holds the walk
  of `DeserizlizeJsonWithInsertionOrder` over a parsed JSON document and the
  two drop-down mappings, which throw `InvalidOperationException`.

The two windows do not treat filter text the same way:

- A C++ filter text made only of commas and blanks yields the single filter
  `*`. The C# window yields no filter when the trimmed text is only commas
  (`CsText.GetFileFiltersEmpty`).
- A C# piece made only of white space between two commas yields an empty
  filter (`CsText.WhiteSpacePieceIsEmptyFilter`).

The model states both behaviours as the code has them.

## Model

| member | source | states |
|---|---|---|
| PickerEnums.LocationAt | Samples/StoragePickers/cpp-sample/MainWindow.xaml.cpp:99-119 | A location exactly for indices 0 to 10; exactly indices 4 and 10 give a raw, unnamed value carrying the index |
| PickerEnums.LocationIndexOfLocationAt | Samples/StoragePickers/cs-sample/MainWindow.xaml.cs:39-59 | Every valid index is recovered from the location it selects |
| PickerEnums.LocationAtOfLocationIndex | Samples/StoragePickers/cs-sample/MainWindow.xaml.cs:39-59 | Every location the drop-down can show is selected by its own index |
| PickerEnums.LocationAtInjective | Samples/StoragePickers/cpp-sample/MainWindow.xaml.cpp:101-116 | Two indices that select the same location are equal |
| PickerEnums.ViewModeAt | Samples/StoragePickers/cpp-sample/MainWindow.xaml.cpp:121-130 | A view mode exactly for indices 0 to 2; exactly index 2 gives a raw, unnamed value |
| PickerEnums.ViewModeIndexOfViewModeAt | Samples/StoragePickers/cs-sample/MainWindow.xaml.cs:61-70 | Every valid index is recovered from the view mode it selects |
| PickerEnums.ViewModeAtOfViewModeIndex | Samples/StoragePickers/cs-sample/MainWindow.xaml.cs:61-70 | Every view mode the drop-down can show is selected by its own index |
| ResultLog.FormatTime | Samples/StoragePickers/cpp-sample/MainWindow.xaml.cpp:77-83 | The timestamp is eight characters with ':' at positions 2 and 5 |
| ResultLog.TwoDigits | Samples/StoragePickers/cpp-sample/MainWindow.xaml.cpp:83 | Each field is two digits whose value is the number, zero-padded |
| ResultLog.ParseFormatTime | Samples/StoragePickers/cs-sample/MainWindow.xaml.cs:34-37 | Reading back a formatted timestamp gives the time of day it was made from |
| ResultLog.FormatTimeInjective | Samples/StoragePickers/cpp-sample/MainWindow.xaml.cpp:77-83 | Different times of day never share a timestamp |
| ResultLog.LogLine | Samples/StoragePickers/cpp-sample/MainWindow.xaml.cpp:87-93 | A line is '[', the timestamp, "] ", the message unchanged and a line break |
| ResultLog.LoggedIsNewestFirst | Samples/StoragePickers/cpp-sample/MainWindow.xaml.cpp:85-96 | After any series of log calls, the text is the new lines, newest first, followed by the old text intact |
| ResultLog.LoggedStep | Samples/StoragePickers/cpp-sample/MainWindow.xaml.cpp:94 | Each log call puts exactly one line in front of the current text |
| ResultLog.LoggedAppend | Samples/StoragePickers/cs-sample/MainWindow.xaml.cs:34-37 | Logging two batches one after the other is logging their concatenation |
| Common.JoinSplitAll | Samples/StoragePickers/cs-sample/MainWindow.xaml.cs:78 | Joining the pieces of a split at a delimiter gives back the text |
| Common.SplitAllJoin | Samples/StoragePickers/cs-sample/MainWindow.xaml.cs:78 | Splitting a join of delimiter-free pieces gives back the pieces |
| Common.FindIsFirst | Samples/StoragePickers/cpp-sample/MainWindow.xaml.cpp:161 | `find` answers the first occurrence of the character |
| Common.RFindIsLast | Samples/StoragePickers/cpp-sample/MainWindow.xaml.cpp:178 | `rfind` answers the last occurrence of the character |
| Common.Find | Samples/StoragePickers/cpp-sample/MainWindow.xaml.cpp:161 | `find` fails exactly when the character is absent; otherwise it is an index of that character with none before it |
| Common.RFind | Samples/StoragePickers/cpp-sample/MainWindow.xaml.cpp:178 | `rfind` fails exactly when the character is absent; otherwise it is an index of that character with none after it |
| Common.FirstBeforeLast | Samples/StoragePickers/cpp-sample/MainWindow.xaml.cpp:202-204 | The first `open` is found, the last `close` is found and the first comes before the last, exactly when some `open` precedes some `close` |
| Common.SplitAll | Samples/StoragePickers/cs-sample/MainWindow.xaml.cs:78 | Splitting at every delimiter gives at least one piece, and no piece holds the delimiter |
| CppText.FindFirstNotOf | Samples/StoragePickers/cpp-sample/MainWindow.xaml.cpp:28 | `npos` exactly when every character is in the trim set; otherwise the first character outside it |
| CppText.FindLastNotOf | Samples/StoragePickers/cpp-sample/MainWindow.xaml.cpp:34 | `npos` exactly when every character is in the trim set; otherwise the last character outside it |
| CppText.TrimCharListed | Samples/StoragePickers/cpp-sample/MainWindow.xaml.cpp:28 | A character is trimmed exactly when it is one of space, tab, CR, LF, single quote and double quote |
| CppText.TrimString | Samples/StoragePickers/cpp-sample/MainWindow.xaml.cpp:26-36 | Empty exactly for text made only of trim characters; the result neither starts nor ends with one |
| CppText.TrimStringSlice | Samples/StoragePickers/cpp-sample/MainWindow.xaml.cpp:26-36 | The result is a contiguous slice; only trim characters are cut on either side |
| CppText.TrimStringChars | Samples/StoragePickers/cpp-sample/MainWindow.xaml.cpp:35 | Trimming introduces no character |
| CppText.TrimStringOfTrimmed | Samples/StoragePickers/cpp-sample/MainWindow.xaml.cpp:26-36 | A trimmed text is left unchanged |
| CppText.TrimStringIdempotent | Samples/StoragePickers/cpp-sample/MainWindow.xaml.cpp:26-36 | Trimming twice is trimming once |
| CppText.TrimStringUnique | Samples/StoragePickers/cpp-sample/MainWindow.xaml.cpp:26-36 | For trim runs around a trimmed core, the result is that core (an independent characterisation) |
| CppText.GetlinePieces | Samples/StoragePickers/cpp-sample/MainWindow.xaml.cpp:140 | No extracted piece contains the delimiter |
| CppText.GetlinePiecesIsSplitAll | Samples/StoragePickers/cpp-sample/MainWindow.xaml.cpp:138-140 | Compared with a split at every delimiter, `getline` extracts nothing from empty text and no empty last piece after a final delimiter; otherwise the pieces are the same |
| CppText.KeepTrimmed | Samples/StoragePickers/cpp-sample/MainWindow.xaml.cpp:142-146 | Keeping the non-empty trimmed pieces never adds a piece |
| CppText.KeepTrimmedElements | Samples/StoragePickers/cpp-sample/MainWindow.xaml.cpp:142-146 | Every kept piece is non-empty and trimmed; there are no more kept pieces than pieces |
| CppText.KeepTrimmedAppend | Samples/StoragePickers/cpp-sample/MainWindow.xaml.cpp:140-147 | The pieces kept from two runs are the pieces of the first run followed by those of the second |
| CppText.KeepTrimmedEmpty | Samples/StoragePickers/cpp-sample/MainWindow.xaml.cpp:143 | Nothing is kept exactly when every piece is only trim characters |
| CppText.KeepTrimmedGetline | Samples/StoragePickers/cpp-sample/MainWindow.xaml.cpp:138-147 | The filters kept from the `getline` loop are those kept from a split at every comma |
| CppText.KeepTrimmedNoDelimiter | Samples/StoragePickers/cpp-sample/MainWindow.xaml.cpp:184-190 | Trimming keeps comma-free pieces comma-free |
| CppText.TrimmedCommaPieces | Samples/StoragePickers/cpp-sample/MainWindow.xaml.cpp:138-147 | The loop yields the trimmed non-empty `getline` pieces, in order |
| CppText.GetFileFilters | Samples/StoragePickers/cpp-sample/MainWindow.xaml.cpp:132-155 | Never empty; every filter is non-empty and trimmed; the kept comma pieces, or the single "*" when none are kept |
| CppText.ArrayContent | Samples/StoragePickers/cpp-sample/MainWindow.xaml.cpp:177-181 | Array content exists only when the value has both a '[' and a ']' |
| CppText.ArrayContentNone | Samples/StoragePickers/cpp-sample/MainWindow.xaml.cpp:177-181 | There is no array content exactly when no '[' comes before any ']': a missing bracket or the first '[' not before the last ']' |
| CppText.ValuesOf | Samples/StoragePickers/cpp-sample/MainWindow.xaml.cpp:176-192 | Every value is non-empty, trimmed and free of commas |
| CppText.ChoiceOfPair | Samples/StoragePickers/cpp-sample/MainWindow.xaml.cpp:157-195 | No entry only without a colon or with a key that trims to nothing; an entry has a non-empty trimmed key without ':' and non-empty trimmed comma-free values |
| CppText.PairSplitsAtFirstColon | Samples/StoragePickers/cpp-sample/MainWindow.xaml.cpp:161-174 | A pair splits at its first colon: the entry is the trimmed key with the values of everything after that colon, and there is none for a blank key |
| CppText.PairWithoutColonSkipped | Samples/StoragePickers/cpp-sample/MainWindow.xaml.cpp:161-165 | A segment without a colon adds no entry |
| CppText.ValuesBetweenBrackets | Samples/StoragePickers/cpp-sample/MainWindow.xaml.cpp:176-192 | The values are the trimmed non-empty comma pieces of the text between the first '[' and the last ']' |
| CppText.ArrayContentBetween | Samples/StoragePickers/cpp-sample/MainWindow.xaml.cpp:177-181 | The first '[' and the last ']' enclose the array content, whatever lies between them |
| CppText.ValuesWithoutBrackets | Samples/StoragePickers/cpp-sample/MainWindow.xaml.cpp:179 | When no '[' comes before a ']' (either missing, or only in the wrong order) the entry has no values, and this is not an error |
| CppText.AppendChoiceFromJsonPair | Samples/StoragePickers/cpp-sample/MainWindow.xaml.cpp:157-195 | The caller's list is kept as it was, with at most one entry (that of the pair) appended at the end |
| CppWindow.DepthAppend | Samples/StoragePickers/cpp-sample/MainWindow.xaml.cpp:221-222 | The bracket depth of a concatenation is the sum of the depths |
| CppWindow.TopCommaFrom | Samples/StoragePickers/cpp-sample/MainWindow.xaml.cpp:218-233 | An answer is a comma at depth zero, at or after the start |
| CppWindow.TopCommaFromFirst | Samples/StoragePickers/cpp-sample/MainWindow.xaml.cpp:218-233 | The answer is the first such comma, and `None` means there is none |
| CppWindow.TopSegments | Samples/StoragePickers/cpp-sample/MainWindow.xaml.cpp:212-240 | A non-empty body gives at least one segment |
| CppWindow.ChoicesOfKeys | Samples/StoragePickers/cpp-sample/MainWindow.xaml.cpp:157-195 | The parsed entries are at most one per segment, and every entry key is non-empty and trimmed |
| CppWindow.ParseChoices | Samples/StoragePickers/cpp-sample/MainWindow.xaml.cpp:202-240 | No result (the invalid-format case) exactly when no '{' comes before a '}'; otherwise every entry key is non-empty and trimmed |
| CppWindow.BraceBody | Samples/StoragePickers/cpp-sample/MainWindow.xaml.cpp:202-210 | A body exists only when the text has both a '{' and a '}'; it is at least two characters shorter than the text |
| CppWindow.InsertionMessages | Samples/StoragePickers/cpp-sample/MainWindow.xaml.cpp:256 | One log message per entry |
| CppWindow.TopSegmentsJoin | Samples/StoragePickers/cpp-sample/MainWindow.xaml.cpp:212-240 | The segments joined by commas give back the body (plus the final comma when the body ends in a cut) |
| CppWindow.TopSegmentsUncut | Samples/StoragePickers/cpp-sample/MainWindow.xaml.cpp:223 | No segment holds a depth-zero comma; every segment but the last has depth zero |
| CppWindow.ChoicesOfTopConcat | Samples/StoragePickers/cpp-sample/MainWindow.xaml.cpp:212-240 | Order is preserved: the entries of `a,b` with `a` balanced are those of `a` followed by those of `b` |
| CppWindow.SingleSegment | Samples/StoragePickers/cpp-sample/MainWindow.xaml.cpp:235-240 | A body without depth-zero commas is one segment, whatever commas its brackets hold |
| CppWindow.BraceBodyBetween | Samples/StoragePickers/cpp-sample/MainWindow.xaml.cpp:202-210 | With no '{' before the chosen '{' and no '}' after the chosen '}', the body is exactly the text between them |
| CppWindow.BraceBodyNone | Samples/StoragePickers/cpp-sample/MainWindow.xaml.cpp:202-208 | "Invalid JSON format" (no body) exactly when no '{' comes before any '}': a missing brace or the first '{' not before the last '}' |
| CppWindow.BracketedUncut | Samples/StoragePickers/cpp-sample/MainWindow.xaml.cpp:221-223 | Commas inside a bracket pair do not cut the pair |
| CppWindow.OnePair | Samples/StoragePickers/cpp-sample/MainWindow.xaml.cpp:212-240 | A single `key: [a, b]` pair parses to one entry: the trimmed key with the trimmed values |
| CppWindow.PairChoice | Samples/StoragePickers/cpp-sample/MainWindow.xaml.cpp:157-195 | The entry of one `key:lead[content]` pair |
| CppWindow.TwoPairs | Samples/StoragePickers/cpp-sample/MainWindow.xaml.cpp:212-240 | Two pairs parse to their two entries, in text order |
| CppWindow.PairDepth | Samples/StoragePickers/cpp-sample/MainWindow.xaml.cpp:221-222 | A closed bracket pair leaves the depth at zero |
| CppWindow.NoBracketDepth | Samples/StoragePickers/cpp-sample/MainWindow.xaml.cpp:221-222 | Text without square brackets has depth zero |
| CppWindow.GetSelectedNewLocationId | Samples/StoragePickers/cpp-sample/MainWindow.xaml.cpp:99-119 | Succeeds exactly for indices 0 to 10, with the location shown at that index; otherwise `hresult_invalid_argument` "Invalid location selected" |
| CppWindow.GetSelectedNewViewMode | Samples/StoragePickers/cpp-sample/MainWindow.xaml.cpp:121-130 | Succeeds exactly for indices 0 to 2, with the view mode shown at that index; otherwise `hresult_invalid_argument` "Invalid view mode selected" |
| CppWindow.FileNameFromPath | Samples/StoragePickers/cpp-sample/MainWindow.xaml.cpp:48-57 | An empty path gives an empty name |
| CppWindow.ScanTopLevelPairs | Samples/StoragePickers/cpp-sample/MainWindow.xaml.cpp:212-240 | The scanning loop produces exactly the entries of the depth-zero segments, in order |
| CppWindow.TakePair | Samples/StoragePickers/cpp-sample/MainWindow.xaml.cpp:223-231 | At a top-level comma the pair since the last cut is parsed and appended: the entries so far are the parse of the segments taken so far |
| CppWindow.TakeLast | Samples/StoragePickers/cpp-sample/MainWindow.xaml.cpp:235-240 | After the loop the remaining text, if any, is the last pair: the entries are the parse of all top-level segments |
| CppWindow.MainWindow.LogResult | Samples/StoragePickers/cpp-sample/MainWindow.xaml.cpp:73-97 | The text block becomes the new line followed by the old text |
| CppWindow.MainWindow.DeserizeJsonInsertionOrder | Samples/StoragePickers/cpp-sample/MainWindow.xaml.cpp:199-260 | Without a '{' before a '}': no entries, "Invalid JSON format" logged, string untouched. Otherwise the string becomes the body, the result is the parse of its segments, and one "Inserting choice" line is logged per entry |
| CppWindow.MainWindow.InsertChoices | Samples/StoragePickers/cpp-sample/MainWindow.xaml.cpp:242-259 | Every entry is copied in order, with one log line each |
| CsText.LeadingWhiteSpace | Samples/StoragePickers/cs-sample/MainWindow.xaml.cs:74 | Counts exactly the white space before the first other character |
| CsText.WhiteSpaceListed | Samples/StoragePickers/cs-sample/MainWindow.xaml.cs:74 | `Char.IsWhiteSpace` holds exactly for the 25 characters of the Unicode White_Space property |
| CsText.TrailingWhiteSpace | Samples/StoragePickers/cs-sample/MainWindow.xaml.cs:74 | Counts exactly the white space after the last other character |
| CsText.Trim | Samples/StoragePickers/cs-sample/MainWindow.xaml.cs:74 | No outer white space; empty exactly for blank text |
| CsText.TrimSlice | Samples/StoragePickers/cs-sample/MainWindow.xaml.cs:74 | The result is a contiguous slice; only white space is cut on either side |
| CsText.TrimUnique | Samples/StoragePickers/cs-sample/MainWindow.xaml.cs:74 | For white space around a core without outer white space, the result is that core |
| CsText.TrimIdempotent | Samples/StoragePickers/cs-sample/MainWindow.xaml.cs:79 | Trimming twice is trimming once |
| CsText.TrimKeepsChars | Samples/StoragePickers/cs-sample/MainWindow.xaml.cs:79 | Trimming introduces no character |
| CsText.SplitFilters | Samples/StoragePickers/cs-sample/MainWindow.xaml.cs:78-80 | Every filter is trimmed and holds no comma |
| CsText.GetFileFilters | Samples/StoragePickers/cs-sample/MainWindow.xaml.cs:72-81 | Blank (or null) text gives "*"; otherwise the result is the split-trim-drop-empty pipeline of the trimmed text, and every filter is trimmed and comma-free |
| CsText.NonEmpty | Samples/StoragePickers/cs-sample/MainWindow.xaml.cs:78 | `RemoveEmptyEntries` keeps exactly the non-empty pieces, never adding one |
| CsText.NonEmptyElements | Samples/StoragePickers/cs-sample/MainWindow.xaml.cs:78 | `RemoveEmptyEntries` keeps only non-empty pieces |
| CsText.SplitFiltersCons | Samples/StoragePickers/cs-sample/MainWindow.xaml.cs:78-80 | The filters of `p,rest` are the trimmed `p` (unless it is empty) followed by those of `rest` |
| CsText.WhiteSpacePieceIsEmptyFilter | Samples/StoragePickers/cs-sample/MainWindow.xaml.cs:78-80 | A blank but non-empty piece survives `RemoveEmptyEntries` and becomes an empty filter |
| CsText.SplitFiltersEmpty | Samples/StoragePickers/cs-sample/MainWindow.xaml.cs:78 | There are no filters exactly when the text is only commas |
| CsText.GetFileFiltersEmpty | Samples/StoragePickers/cs-sample/MainWindow.xaml.cs:72-81 | Non-blank text gives no filter at all exactly when its trimmed form is only commas |
| CsWindow.ExtensionsOf | Samples/StoragePickers/cs-sample/MainWindow.xaml.cs:105-118 | Succeeds exactly when every element is a string; the failure is the "must be strings" `ArgumentException`; no kept extension is blank |
| CsWindow.ChoiceOfProperty | Samples/StoragePickers/cs-sample/MainWindow.xaml.cs:98-121 | A pair exactly for an array of strings, named by the property; a non-array gives the "must be an array" `ArgumentException` |
| CsWindow.WalkProperties | Samples/StoragePickers/cs-sample/MainWindow.xaml.cs:98-122 | One pair per property, in document order, up to the first property that throws; that property's exception ends the walk |
| CsWindow.Deserialize | Samples/StoragePickers/cs-sample/MainWindow.xaml.cs:83-124 | Blank input yields nothing and no error; a parse error is `InvalidJson`; a non-object root gives the "Expected a JSON object" `ArgumentException`; an object root gives exactly the walk of its properties in document order |
| CsWindow.DeserializedMessages | Samples/StoragePickers/cs-sample/MainWindow.xaml.cs:120 | One log message per yielded pair |
| CsWindow.DeserializedMessage | Samples/StoragePickers/cs-sample/MainWindow.xaml.cs:120 | The log line reads "Deserialized choice: ", the name, " with extensions: " and then the extensions joined by ", "; with none it ends right after that text |
| CsWindow.WalkPropertiesUnique | Samples/StoragePickers/cs-sample/MainWindow.xaml.cs:98-122 | The walk is the only outcome with that characterisation |
| CsWindow.WalkPrefixStep | Samples/StoragePickers/cs-sample/MainWindow.xaml.cs:98-122 | One more property either extends the pairs by its own pair or ends the walk with its exception |
| CsWindow.WalkThenOne | Samples/StoragePickers/cs-sample/MainWindow.xaml.cs:98-122 | A successful property after a successful walk adds its pair at the end |
| CsWindow.WalkThenFailure | Samples/StoragePickers/cs-sample/MainWindow.xaml.cs:100-103 | A failing property ends the walk; no later property is seen |
| CsWindow.WalkPropertiesAppend | Samples/StoragePickers/cs-sample/MainWindow.xaml.cs:98-122 | Walking two runs of properties is walking the first, then the second only if the first did not throw |
| CsWindow.WalkNames | Samples/StoragePickers/cs-sample/MainWindow.xaml.cs:121 | A walk that does not throw yields one pair per property, named as the property, in order |
| CsWindow.WalkFails | Samples/StoragePickers/cs-sample/MainWindow.xaml.cs:98-122 | The walk throws exactly when some property is not an array of strings |
| CsWindow.ExtensionsAppend | Samples/StoragePickers/cs-sample/MainWindow.xaml.cs:105-118 | The extensions of two runs of elements are those of the first followed by those of the second |
| CsWindow.ExtensionsExact | Samples/StoragePickers/cs-sample/MainWindow.xaml.cs:105-118 | An extension is kept exactly when it is a non-blank string element |
| CsWindow.LoggedDeserializedSnoc | Samples/StoragePickers/cs-sample/MainWindow.xaml.cs:120-121 | Yielding one more pair puts its log line in front of the text block |
| CsWindow.GetSelectedNewLocationId | Samples/StoragePickers/cs-sample/MainWindow.xaml.cs:39-59 | Succeeds exactly for indices 0 to 10, with the location shown at that index; otherwise `InvalidOperationException` "Invalid location selected" |
| CsWindow.GetSelectedNewViewMode | Samples/StoragePickers/cs-sample/MainWindow.xaml.cs:61-70 | Succeeds exactly for indices 0 to 2, with the view mode shown at that index; otherwise `InvalidOperationException` "Invalid view mode selected" |
| CsWindow.ReadExtensions | Samples/StoragePickers/cs-sample/MainWindow.xaml.cs:105-118 | The element loop computes `ExtensionsOf`: the non-blank strings, or the exception of the first non-string |
| CsWindow.ExtensionsPrefixFails | Samples/StoragePickers/cs-sample/MainWindow.xaml.cs:108-111 | Once an element is not a string, the whole array fails |
| CsWindow.MainWindow.LogResult | Samples/StoragePickers/cs-sample/MainWindow.xaml.cs:34-37 | The text block becomes the new line followed by the old text |
| CsWindow.MainWindow.DeserizlizeJsonWithInsertionOrder | Samples/StoragePickers/cs-sample/MainWindow.xaml.cs:83-124 | The pairs and the exception are those of `Deserialize`; one "Deserialized choice" line is logged per yielded pair, in order |
| CsWindow.MainWindow.EnumerateChoices | Samples/StoragePickers/cs-sample/MainWindow.xaml.cs:98-122 | The loop over the properties yields exactly the walk, logging each pair before the next property is read |

## Left out

- The click handlers that open the pickers are not modelled. Neither are the
  XAML controls, the window constructor, the `IsChecked` helper or the header
  `MainWindow.xaml.h`. They call into the Windows App SDK, which is not part
  of this model.
- The wall clock (`system_clock::now`, `localtime_s`, `DateTime.Now`) is
  replaced by a time-of-day parameter.
  - Every log line of one parse uses the same time.
  - The time zone and calendar are not modelled.
- ResultLog.FormatTime: the C# `{DateTime.Now:HH:mm:ss}` writes the current
  culture's time separator between the fields. The model always writes ':',
  which is what the C++ `%H:%M:%S` writes and what the invariant culture
  uses. Cultures with another separator are not modelled.
- `JsonDocument.Parse` is the parameter `parse` of
  `CsWindow.Deserialize`. Its `JsonException` becomes `InvalidJson`, and the
  document's lifetime (`using`) is not modelled.
- The C# iterator is lazy, but the model enumerates it eagerly to its end or
  to its first exception. A caller that stops early, and the point at which
  the exception surfaces in the caller, are not modelled.
- `.NET ArgumentException` is modelled as a message plus `paramName`. The
  message text that .NET appends ("(Parameter 'choicesJson')") is not
  modelled.
- A null text box reads as empty text in the C# `GetFileFilters`. The model
  takes a plain string.
- Wide strings (`std::wstring`, `hstring`, .NET UTF-16 strings) are modelled
  as `seq<char>`. There is no encoding, surrogate pair or culture handling.
- The C++ `bracketDepth` is a 32-bit `int`. It is modelled unbounded, because
  overflow would need more than 2^31 brackets.
- The copy of the entries into `hstring` pairs in the C++ results loop is
  modelled as a copy of the same values.
- The C++ raw enumeration casts (`static_cast<PickerLocationId>(4)` and
  `(10)`, `static_cast<PickerViewMode>(2)`) are modelled as `Unnamed` values
  carrying the integer. How the picker rejects them is not modelled.
- CppWindow.FileNameFromPath: the contract states only the empty-path case.
  The last path component comes from `std::filesystem::path::filename`,
  which is a parameter here, so nothing more is stated about it.
