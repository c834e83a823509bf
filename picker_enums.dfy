/**
 * The two drop-down mappings that both windows share: the index selected in
 * the start-location combo box and in the view-mode combo box, mapped to the
 * picker enumerations. Two of the location entries and one of the view-mode
 * entries are raw casts of an integer that no named member of the new
 * enumeration carries (the location value 4 was `HomeGroup` in the older
 * enumeration); they are kept as `Unnamed(raw)` values so that the picker can
 * reject them.
 */
module PickerEnums {
  import opened Common

  datatype PickerLocationId =
    | DocumentsLibrary
    | ComputerFolder
    | Desktop
    | Downloads
    | MusicLibrary
    | PicturesLibrary
    | VideosLibrary
    | Objects3D
    | Unspecified
    | UnnamedLocation(raw: int)

  datatype PickerViewMode =
    | List
    | Thumbnail
    | UnnamedViewMode(raw: int)

  /** Number of entries in the start-location combo box (indices 0 to 10). */
  const LocationCount: nat := 11

  /** Number of entries in the view-mode combo box (indices 0 to 2). */
  const ViewModeCount: nat := 3

  /**
   * The location behind a combo-box index; `None` where the window throws
   * (`hresult_invalid_argument` in C++, `InvalidOperationException` in C#).
   * Indices 4 and 10 give raw casts rather than named members.
   */
  function LocationAt(index: int): (r: Option<PickerLocationId>)
    ensures r.Some? <==> 0 <= index < LocationCount
    ensures r.Some? && r.value.UnnamedLocation? <==> index == 4 || index == 10
    ensures r.Some? && r.value.UnnamedLocation? ==> r.value.raw == index
  {
    match index
    case 0 => Some(DocumentsLibrary)
    case 1 => Some(ComputerFolder)
    case 2 => Some(Desktop)
    case 3 => Some(Downloads)
    case 4 => Some(UnnamedLocation(4))
    case 5 => Some(MusicLibrary)
    case 6 => Some(PicturesLibrary)
    case 7 => Some(VideosLibrary)
    case 8 => Some(Objects3D)
    case 9 => Some(Unspecified)
    case 10 => Some(UnnamedLocation(10))
    case _ => None
  }

  /** The combo-box position that shows a location; the inverse of `LocationAt`. */
  function LocationIndex(loc: PickerLocationId): (r: Option<int>)
    ensures r.Some? ==> 0 <= r.value < LocationCount
  {
    match loc
    case DocumentsLibrary => Some(0)
    case ComputerFolder => Some(1)
    case Desktop => Some(2)
    case Downloads => Some(3)
    case MusicLibrary => Some(5)
    case PicturesLibrary => Some(6)
    case VideosLibrary => Some(7)
    case Objects3D => Some(8)
    case Unspecified => Some(9)
    case UnnamedLocation(raw) => if raw == 4 || raw == 10 then Some(raw) else None
  }

  /** Every valid index is recovered from the location it selects. */
  lemma LocationIndexOfLocationAt(index: int)
    requires 0 <= index < LocationCount
    ensures LocationAt(index).Some? && LocationIndex(LocationAt(index).value) == Some(index)
  {
  }

  /** Every location the combo box can show is selected by exactly its own index. */
  lemma LocationAtOfLocationIndex(loc: PickerLocationId)
    requires LocationIndex(loc).Some?
    ensures LocationAt(LocationIndex(loc).value) == Some(loc)
  {
  }

  /** Different indices select different locations. */
  lemma LocationAtInjective(i: int, j: int)
    requires LocationAt(i).Some? && LocationAt(i) == LocationAt(j)
    ensures i == j
  {
    LocationIndexOfLocationAt(i);
    LocationIndexOfLocationAt(j);
  }

  /**
   * The view mode behind a combo-box index; `None` where the window throws
   * (`hresult_invalid_argument` in C++, `InvalidOperationException` in C#).
   */
  function ViewModeAt(index: int): (r: Option<PickerViewMode>)
    ensures r.Some? <==> 0 <= index < ViewModeCount
    ensures r.Some? && r.value.UnnamedViewMode? <==> index == 2
    ensures r.Some? && r.value.UnnamedViewMode? ==> r.value.raw == index
  {
    match index
    case 0 => Some(List)
    case 1 => Some(Thumbnail)
    case 2 => Some(UnnamedViewMode(2))
    case _ => None
  }

  /** The combo-box position that shows a view mode; the inverse of `ViewModeAt`. */
  function ViewModeIndex(mode: PickerViewMode): (r: Option<int>)
    ensures r.Some? ==> 0 <= r.value < ViewModeCount
  {
    match mode
    case List => Some(0)
    case Thumbnail => Some(1)
    case UnnamedViewMode(raw) => if raw == 2 then Some(2) else None
  }

  /** Every valid index is recovered from the view mode it selects. */
  lemma ViewModeIndexOfViewModeAt(index: int)
    requires 0 <= index < ViewModeCount
    ensures ViewModeAt(index).Some? && ViewModeIndex(ViewModeAt(index).value) == Some(index)
  {
  }

  /** Every view mode the combo box can show is selected by exactly its own index. */
  lemma ViewModeAtOfViewModeIndex(mode: PickerViewMode)
    requires ViewModeIndex(mode).Some?
    ensures ViewModeAt(ViewModeIndex(mode).value) == Some(mode)
  {
  }
}
