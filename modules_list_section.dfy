/** One droppable category list of a semester card (`ModulesListSection`):
    when it accepts a drop, how it is styled while a drag is in progress, and
    the list items it renders. */
module ModulesListSection {
  import opened Wrappers
  import opened Text
  import opened PlanTypes

  /** The props that decide dropping and styling. An absent optional prop
      takes the default of the source: `disabled = false`,
      `showAddItemButton = true`, `isHovered = false`,
      `isDragInProgress = false`. `hasAddItemHandler` says whether `onAddItem`
      was passed. */
  datatype SectionProps = SectionProps(
    modules: seq<SemesterModule>,
    disabled: Option<bool>,
    showAddItemButton: Option<bool>,
    isHovered: Option<bool>,
    isDragInProgress: Option<bool>,
    hasAddItemHandler: bool)

  /** The list's inner padding: `"0 0.5rem"`, `"0.5rem 0.5rem 5rem 0.5rem"` or `"0"`. */
  datatype Padding = Collapsed | DropZone | Flush

  function PaddingCss(p: Padding): string
  {
    match p
    case Collapsed => "0 0.5rem"
    case DropZone => "0.5rem 0.5rem 5rem 0.5rem"
    case Flush => "0"
  }

  datatype AddButton = NotRendered | Hidden | Shown

  /** One rendered `ModulesListItem`. */
  datatype ListItem = ListItem(
    key: string,
    catalogModule: Option<Module>,
    assessment: Option<Assessment>,
    index: nat,
    draggableId: string)

  /** The decisions the section makes when it renders. */
  datatype SectionView = SectionView(
    droppableId: string,
    isDropDisabled: bool,
    notAllowedCursor: bool,
    titleDisabled: bool,
    titleHighlighted: bool,
    addButton: AddButton,
    padding: Padding,
    dashedBorder: bool,
    items: seq<ListItem>)

  predicate IsDragTarget(isHovered: bool, isDragInProgress: bool, disabled: bool)
  {
    isHovered && isDragInProgress && !disabled
  }

  const DraggablePrefix: string := "draggable:semester-module:"

  function AssessmentOf(e: SemesterModule): Option<Assessment>
  {
    match e
    case Planned(_, _) => None
    case Past(_, a, _) => Some(a)
  }

  /** `modules.map((module, index) => <ModulesListItem ... />)`. */
  function Items(modules: seq<SemesterModule>): (r: seq<ListItem>)
    ensures |r| == |modules|
    ensures forall i :: 0 <= i < |r| ==> r[i].index == i && r[i].key == modules[i].id
    ensures forall i :: 0 <= i < |r| ==> r[i].catalogModule == modules[i].catalogModule && r[i].assessment == AssessmentOf(modules[i])
    ensures forall i :: 0 <= i < |r| ==> StartsWith(r[i].draggableId, DraggablePrefix)
  {
    seq(|modules|, i requires 0 <= i < |modules| =>
      ListItem(modules[i].id, modules[i].catalogModule, AssessmentOf(modules[i]), i, DraggablePrefix + modules[i].id))
  }

  /** The entry id a draggable id names, if it is one of this section's. */
  function EntryIdOfDraggable(draggableId: string): Option<string>
  {
    if StartsWith(draggableId, DraggablePrefix) then Some(draggableId[|DraggablePrefix|..]) else None
  }

  /** Every rendered item's draggable id leads back to its entry. */
  lemma ItemsDraggableRoundTrip(modules: seq<SemesterModule>, i: nat)
    requires i < |modules|
    ensures EntryIdOfDraggable(Items(modules)[i].draggableId) == Some(modules[i].id)
  {
    var d := Items(modules)[i].draggableId;
    assert d == DraggablePrefix + modules[i].id;
    assert d[|DraggablePrefix|..] == modules[i].id;
  }

  function Render(droppableId: string, props: SectionProps): SectionView
  {
    var disabled := props.disabled.GetOr(false);
    var showAddItemButton := props.showAddItemButton.GetOr(true);
    var isHovered := props.isHovered.GetOr(false);
    var isDragInProgress := props.isDragInProgress.GetOr(false);
    var isDragTarget := IsDragTarget(isHovered, isDragInProgress, disabled);
    SectionView(
      droppableId,
      !isDragTarget,
      disabled && isDragInProgress,
      isDragInProgress && disabled,
      isDragTarget,
      if !props.hasAddItemHandler then NotRendered else if !showAddItemButton then Hidden else Shown,
      if !isDragTarget && |props.modules| == 0 then Collapsed else if isDragTarget then DropZone else Flush,
      isDragTarget,
      Items(props.modules))
  }

  /** A section accepts a drop exactly when it is hovered, a drag is in
      progress and it is not disabled. */
  lemma AcceptsDropIff(droppableId: string, props: SectionProps)
    ensures !Render(droppableId, props).isDropDisabled
      <==> props.isHovered == Some(true) && props.isDragInProgress == Some(true) && props.disabled != Some(true)
  {
  }

  /** With the default `isHovered` or the default `isDragInProgress` a
      section never accepts a drop, whatever the other props. */
  lemma DefaultsRejectDrops(droppableId: string, props: SectionProps)
    requires props.isHovered.None? || props.isDragInProgress.None?
    ensures Render(droppableId, props).isDropDisabled
  {
  }

  /** The not-allowed cursor and the greyed title go together, only while a
      drag is in progress over a disabled section, and never on a drop target. */
  lemma NotAllowedStyling(droppableId: string, props: SectionProps)
    ensures var v := Render(droppableId, props);
      && (v.notAllowedCursor <==> props.disabled == Some(true) && props.isDragInProgress == Some(true))
      && v.titleDisabled == v.notAllowedCursor
      && (v.notAllowedCursor ==> v.isDropDisabled)
  {
  }

  /** The enlarged padding and the dashed border mark exactly the drop
      targets; the collapsed padding only an empty list that is not one. */
  lemma PaddingAndBorder(droppableId: string, props: SectionProps)
    ensures var v := Render(droppableId, props);
      && (v.padding == DropZone <==> !v.isDropDisabled)
      && (v.dashedBorder <==> !v.isDropDisabled)
      && (v.padding == Collapsed <==> v.isDropDisabled && |props.modules| == 0)
      && (v.padding == Flush <==> v.isDropDisabled && |props.modules| > 0)
  {
  }
}
