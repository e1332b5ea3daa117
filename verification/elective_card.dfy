/** The elective card: an empty elective slot shows a placeholder, a filled
    one shows the chosen course; a popover lists the slot's options, where an
    option in the conflict set is disabled unless it is the one already
    chosen, and choosing an enabled option reports it and closes the popover. */
module ElectiveCards {
  import opened Prelude

  /** One course that can fill an elective slot. */
  datatype CourseOption = CourseOption(id: string, code: string, title: string, credits: real, prereqs: seq<string>)

  /** An elective slot of the flowsheet: its optional `label` (here
      `caption`, `label` being a Dafny keyword) and its optional list of
      options. */
  datatype ElectiveSlot = ElectiveSlot(id: string, caption: Option<string>, options: Option<seq<CourseOption>>)

  /** `selectedOption?.id === opt.id`: with no selection the comparison is
      with `undefined` and fails. */
  predicate IsSelected(opt: CourseOption, selected: Option<CourseOption>)
  {
    selected.Some? && selected.value.id == opt.id
  }

  /** `disabledOptionIds?.has(opt.id) && !isSelected`: an absent conflict set
      makes the whole condition `undefined`, which is falsy. */
  predicate IsDisabled(opt: CourseOption, selected: Option<CourseOption>, disabledIds: Option<set<string>>)
  {
    disabledIds.Some? && opt.id in disabledIds.value && !IsSelected(opt, selected)
  }

  /** The option already chosen is never disabled, even if its id is in the
      conflict set. */
  lemma SelectedNeverDisabled(selected: CourseOption, disabledIds: Option<set<string>>)
    ensures !IsDisabled(selected, Some(selected), disabledIds)
    ensures forall opt: CourseOption :: opt.id == selected.id ==> !IsDisabled(opt, Some(selected), disabledIds)
  {
  }

  /** Without a conflict set every option is enabled. */
  lemma NoConflictSetNoneDisabled(selected: Option<CourseOption>)
    ensures forall opt: CourseOption :: !IsDisabled(opt, selected, None)
  {
  }

  /** Changing the selection can only flip the disabled flag of the options
      carrying the old or the new selection's id: every other option keeps
      its flag. */
  lemma ReselectKeepsOtherOptions(opt: CourseOption, before: Option<CourseOption>, after: Option<CourseOption>,
                                  disabledIds: Option<set<string>>)
    requires !IsSelected(opt, before) && !IsSelected(opt, after)
    ensures IsDisabled(opt, before, disabledIds) == IsDisabled(opt, after, disabledIds)
  {
  }

  /** A larger conflict set disables at least the options a smaller one
      disables, and an option outside the conflict set is never disabled. */
  lemma DisabledMonotone(opt: CourseOption, selected: Option<CourseOption>, smaller: set<string>, larger: set<string>)
    requires smaller <= larger
    ensures IsDisabled(opt, selected, Some(smaller)) ==> IsDisabled(opt, selected, Some(larger))
    ensures opt.id !in larger ==> !IsDisabled(opt, selected, Some(larger))
  {
  }

  /** A row of the popover's option list. */
  datatype MenuItem = MenuItem(option: CourseOption, selected: bool, disabled: bool)

  /** The rows for `course.options?.map(...)`: one per option, in order; no
      rows when the slot has no option list. */
  function MenuItems(slot: ElectiveSlot, selected: Option<CourseOption>, disabledIds: Option<set<string>>): (r: seq<MenuItem>)
    ensures slot.options.None? ==> r == []
    ensures slot.options.Some? ==> |r| == |slot.options.value|
    ensures slot.options.Some? ==>
              forall k :: 0 <= k < |r| ==>
                && r[k].option == slot.options.value[k]
                && (r[k].selected <==> IsSelected(slot.options.value[k], selected))
                && (r[k].disabled <==> IsDisabled(slot.options.value[k], selected, disabledIds))
  {
    match slot.options
    case None => []
    case Some(options) =>
      seq(|options|, k requires 0 <= k < |options| =>
        MenuItem(options[k], IsSelected(options[k], selected), IsDisabled(options[k], selected, disabledIds)))
  }

  /** At most one row of a slot whose option ids are distinct carries the
      check mark, and no checked row is disabled. */
  lemma MenuItemsOneChecked(slot: ElectiveSlot, selected: Option<CourseOption>, disabledIds: Option<set<string>>)
    requires slot.options.Some?
    requires forall a, b :: 0 <= a < b < |slot.options.value| ==> slot.options.value[a].id != slot.options.value[b].id
    ensures var items := MenuItems(slot, selected, disabledIds);
            && (forall a, b :: 0 <= a < b < |items| ==> !(items[a].selected && items[b].selected))
            && (forall k :: 0 <= k < |items| ==> !(items[k].selected && items[k].disabled))
  {
    var items := MenuItems(slot, selected, disabledIds);
    forall a, b | 0 <= a < b < |items|
      ensures !(items[a].selected && items[b].selected)
    {
      assert items[a].option == slot.options.value[a];
      assert items[b].option == slot.options.value[b];
    }
  }

  /** What the card body shows. */
  datatype CardFace = ShowsOption(option: CourseOption) | Placeholder(text: string)

  /** The card face: the chosen option's course card, else the slot's label
      (`course.label || "Elective"`: an absent or empty label falls back). */
  function Face(slot: ElectiveSlot, selected: Option<CourseOption>): (r: CardFace)
    ensures selected.Some? <==> r.ShowsOption?
    ensures selected.Some? ==> r.option == selected.value
    ensures r.Placeholder? ==> r.text != ""
    ensures r.Placeholder? && slot.caption.Some? && slot.caption.value != "" ==> r.text == slot.caption.value
    ensures r.Placeholder? && (slot.caption.None? || slot.caption.value == "") ==> r.text == "Elective"
  {
    if selected.Some? then ShowsOption(selected.value)
    else if slot.caption.Some? && slot.caption.value != "" then Placeholder(slot.caption.value)
    else Placeholder("Elective")
  }

  /** The card's own state: whether its option popover is open. */
  class ElectiveCard {
    var open: bool

    /** `useState(false)`: the popover starts closed. */
    constructor()
      ensures !open
    {
      open := false;
    }

    /** `trigger()` on the card's handle, and the edit button's click: open. */
    method Trigger()
      modifies this
      ensures open
    {
      open := true;
    }

    /** `onOpenChange`: the popover reports it opened or closed. */
    method OpenChange(value: bool)
      modifies this
      ensures open == value
    {
      open := value;
    }

    /** A row's `onSelect`: a disabled option does nothing; an enabled one is
        handed to the parent's `onSelect` (returned here) and the popover
        closes. */
    method Choose(opt: CourseOption, selected: Option<CourseOption>, disabledIds: Option<set<string>>)
      returns (emitted: Option<CourseOption>)
      modifies this
      ensures IsDisabled(opt, selected, disabledIds) ==> emitted == None && open == old(open)
      ensures !IsDisabled(opt, selected, disabledIds) ==> emitted == Some(opt) && !open
    {
      var isDisabled := IsDisabled(opt, selected, disabledIds);
      if !isDisabled {
        emitted := Some(opt);
        open := false;
      } else {
        emitted := None;
      }
    }
  }
}
