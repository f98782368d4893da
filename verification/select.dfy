/** The searchable `Select` control (src/components/ui/Select.tsx). Its open state is
    either owned by the control or, when the parent passes `isOpen`, by the parent;
    the control filters its options by the typed search, moves a highlight with the
    arrow keys, reports a choice through `onChange`, and forwards every key to the
    parent's `onKeyDown`. Calls to the parent's callbacks are returned as notices. */
module SelectControl {
  import opened Text
  import Keyboard

  datatype Props = Props(
    value: string,
    options: seq<string>,
    readOnly: bool,
    /** The `isOpen` prop: `None` when the parent leaves the open state to the control. */
    controlledOpen: Option<bool>,
    hasOnOpenChange: bool,
    hasOnKeyDown: bool)

  datatype State = State(internalOpen: bool, search: string, selectedIndex: int)

  /** A call into the parent. */
  datatype Notice = Changed(value: string) | OpenChanged(open: bool) | KeyForwarded(key: Keyboard.Key)

  datatype Reaction = Reaction(state: State, notices: seq<Notice>)

  /** The state on mount: closed, no search, nothing highlighted. */
  function Initial(): (s: State)
    ensures !s.internalOpen && s.search == "" && s.selectedIndex == -1
  {
    State(false, "", -1)
  }

  function IsOpen(p: Props, s: State): (b: bool)
    ensures p.controlledOpen.Some? ==> b == p.controlledOpen.value
    ensures p.controlledOpen.None? ==> b == s.internalOpen
  {
    match p.controlledOpen
    case Some(b) => b
    case None => s.internalOpen
  }

  /** `setIsOpen(open)`: tell the parent, and change the own state only when it is
      the control's to change. */
  function SetIsOpen(p: Props, s: State, open: bool): (r: Reaction)
    ensures p.controlledOpen.None? ==> r.state == s.(internalOpen := open)
    ensures p.controlledOpen.Some? ==> r.state == s
    ensures r.notices == if p.hasOnOpenChange then [OpenChanged(open)] else []
  {
    Reaction(if p.controlledOpen.None? then s.(internalOpen := open) else s,
             if p.hasOnOpenChange then [OpenChanged(open)] else [])
  }

  /** `filteredOptions`. */
  function Filtered(p: Props, s: State): (r: seq<string>)
    ensures forall x :: x in r <==> x in p.options && MatchesSearch(x, s.search)
    ensures forall x :: multiset(r)[x] == if MatchesSearch(x, s.search) then multiset(p.options)[x] else 0
    ensures IsSubsequence(r, p.options)
  {
    FilterBySearch(p.options, s.search)
  }

  /** Appends the forwarded key, when the parent listens for keys. */
  function Forward(p: Props, r: Reaction, key: Keyboard.Key): (r': Reaction)
    ensures r'.state == r.state
    ensures r'.notices == r.notices + (if p.hasOnKeyDown then [KeyForwarded(key)] else [])
  {
    if p.hasOnKeyDown then Reaction(r.state, r.notices + [KeyForwarded(key)]) else r
  }

  /** What `handleKeyDown` does itself: while open, the arrows move the highlight
      (wrapping), Enter reports the highlighted option and closes, Escape and Tab
      close; while closed, nothing. */
  function OwnKeyReaction(p: Props, s: State, key: Keyboard.Key): (r: Reaction)
    ensures !IsOpen(p, s) ==> r == Reaction(s, [])
    ensures IsOpen(p, s) && (key == Keyboard.Escape || key == Keyboard.Tab) ==> r == SetIsOpen(p, s, false)
    ensures forall i | 0 <= i < |r.notices| :: !r.notices[i].KeyForwarded?
  {
    var f := FilterBySearch(p.options, s.search);
    var n := |f|;
    if !IsOpen(p, s) then Reaction(s, [])
    else match key
      case ArrowDown => Reaction(s.(selectedIndex := Keyboard.HighlightDown(s.selectedIndex, n)), [])
      case ArrowUp => Reaction(s.(selectedIndex := Keyboard.HighlightUp(s.selectedIndex, n)), [])
      case Enter =>
        if 0 <= s.selectedIndex < n && f[s.selectedIndex] != "" then
          var closed := SetIsOpen(p, s, false);
          Reaction(closed.state, [Changed(f[s.selectedIndex])] + closed.notices)
        else Reaction(s, [])
      case Escape => SetIsOpen(p, s, false)
      case Tab => SetIsOpen(p, s, false)
      case _ => Reaction(s, [])
  }

  /** `handleKeyDown(key)`: the control's own reaction, then the key forwarded to
      the parent whether or not the control used it. */
  function HandleKeyDown(p: Props, s: State, key: Keyboard.Key): Reaction
  {
    Forward(p, OwnKeyReaction(p, s, key), key)
  }

  /** Typing into the input: unless read-only, the text becomes the search, and a
      closed control asks to open. */
  function OnInput(p: Props, s: State, text: string): (r: Reaction)
    ensures p.readOnly ==> r == Reaction(s, [])
    ensures !p.readOnly ==> r.state.search == text && r.state.selectedIndex == s.selectedIndex
    ensures !p.readOnly && !IsOpen(p, s) ==> r == SetIsOpen(p, s.(search := text), true)
    ensures !p.readOnly && IsOpen(p, s) ==> r == Reaction(s.(search := text), [])
  {
    if p.readOnly then Reaction(s, [])
    else
      var s' := s.(search := text);
      if !IsOpen(p, s) then SetIsOpen(p, s', true) else Reaction(s', [])
  }

  /** A click on the input, or on the arrow button (which exists only when the
      control is editable): toggle. */
  function OnClick(p: Props, s: State): (r: Reaction)
    ensures p.readOnly ==> r == Reaction(s, [])
    ensures !p.readOnly ==> r == SetIsOpen(p, s, !IsOpen(p, s))
  {
    if p.readOnly then Reaction(s, []) else SetIsOpen(p, s, !IsOpen(p, s))
  }

  /** A click on a listed option: report it and close. The list is rendered only
      while the control is open. */
  function OnOptionClick(p: Props, s: State, option: string): (r: Reaction)
    requires IsOpen(p, s) && option in Filtered(p, s)
    ensures |r.notices| >= 1 && r.notices[0] == Changed(option) && option in p.options
    ensures r.notices[1..] == SetIsOpen(p, s, false).notices
    ensures r.state == SetIsOpen(p, s, false).state
  {
    var closed := SetIsOpen(p, s, false);
    Reaction(closed.state, [Changed(option)] + closed.notices)
  }

  /** The effect on `[isOpen]`: when the open state has just turned false, the search
      is cleared. */
  function AfterRender(wasOpen: bool, nowOpen: bool, s: State): (s': State)
    ensures wasOpen && !nowOpen ==> s' == s.(search := "")
    ensures !(wasOpen && !nowOpen) ==> s' == s
  {
    if wasOpen != nowOpen && !nowOpen then s.(search := "") else s
  }

  /** The input shows the search while open and the value otherwise. */
  function Shown(p: Props, s: State): (t: string)
    ensures IsOpen(p, s) ==> t == s.search
    ensures !IsOpen(p, s) ==> t == p.value
  {
    if IsOpen(p, s) then s.search else p.value
  }

  /** The option list is rendered when open and some option matches. */
  predicate ListShown(p: Props, s: State) {
    IsOpen(p, s) && |Filtered(p, s)| > 0
  }

  // ----- Properties -----

  /** The parent's key handler sees every key, last, and only when it is given. */
  lemma KeysAlwaysForwarded(p: Props, s: State, key: Keyboard.Key)
    ensures var r := HandleKeyDown(p, s, key);
            (p.hasOnKeyDown <==> KeyForwarded(key) in r.notices)
            && (p.hasOnKeyDown ==> r.notices[|r.notices| - 1] == KeyForwarded(key))
  {
    var own := OwnKeyReaction(p, s, key);
    assert KeyForwarded(key) !in own.notices;
  }

  /** A closed control ignores every key itself; it only forwards it. */
  lemma ClosedIgnoresKeys(p: Props, s: State, key: Keyboard.Key)
    requires !IsOpen(p, s)
    ensures HandleKeyDown(p, s, key) == Forward(p, Reaction(s, []), key)
  {
  }

  /** Enter reports a choice exactly when the control is open and the highlight is on
      a non-empty entry; what it reports is that entry, one of the options matching
      the search. */
  lemma EnterReportsHighlighted(p: Props, s: State)
    ensures var r := HandleKeyDown(p, s, Keyboard.Enter);
            var f := Filtered(p, s);
            && (IsOpen(p, s) && 0 <= s.selectedIndex < |f| && f[s.selectedIndex] != ""
                ==> r.notices[0] == Changed(f[s.selectedIndex]) && f[s.selectedIndex] in p.options
                    && MatchesSearch(f[s.selectedIndex], s.search))
            && (!(IsOpen(p, s) && 0 <= s.selectedIndex < |f| && f[s.selectedIndex] != "")
                ==> r.state == s && forall i | 0 <= i < |r.notices| :: !r.notices[i].Changed?)
  {
  }

  /** Open, with a non-empty list: both arrows keep the highlight on an entry and
      undo each other. */
  lemma ArrowsStayInList(p: Props, s: State)
    requires IsOpen(p, s) && -1 <= s.selectedIndex < |Filtered(p, s)| && |Filtered(p, s)| > 0
    ensures var d := HandleKeyDown(p, s, Keyboard.ArrowDown).state;
            var u := HandleKeyDown(p, s, Keyboard.ArrowUp).state;
            && 0 <= d.selectedIndex < |Filtered(p, s)| && 0 <= u.selectedIndex < |Filtered(p, s)|
            && d.search == s.search && u.search == s.search
            && (s.selectedIndex >= 0 ==> HandleKeyDown(p, d, Keyboard.ArrowUp).state.selectedIndex == s.selectedIndex)
  {
    var n := |Filtered(p, s)|;
    Keyboard.HighlightInRange(s.selectedIndex, n);
    if s.selectedIndex >= 0 {
      Keyboard.HighlightInverse(s.selectedIndex, n);
    }
  }

  /** A control that owns its open state, once the effect has run: Escape or Tab
      closes it and clears the search; the parent hears of it if it listens. */
  lemma EscapeOrTabClosesAndClears(p: Props, s: State, key: Keyboard.Key)
    requires p.controlledOpen.None? && s.internalOpen
    requires key == Keyboard.Escape || key == Keyboard.Tab
    ensures var r := HandleKeyDown(p, s, key);
            var settled := AfterRender(IsOpen(p, s), IsOpen(p, r.state), r.state);
            && !IsOpen(p, settled) && settled.search == ""
            && settled.selectedIndex == s.selectedIndex
            && (p.hasOnOpenChange ==> r.notices[0] == OpenChanged(false))
  {
  }

  /** A control whose open state belongs to the parent asks it to close on Escape
      or Tab, and asks it to open when typing into the closed control; its own
      state keeps the open flag either way. */
  lemma ControlledAsksParent(p: Props, s: State, key: Keyboard.Key, text: string)
    requires p.controlledOpen.Some? && p.hasOnOpenChange
    ensures p.controlledOpen.value && (key == Keyboard.Escape || key == Keyboard.Tab)
            ==> HandleKeyDown(p, s, key).notices[0] == OpenChanged(false)
    ensures !p.controlledOpen.value && !p.readOnly
            ==> OnInput(p, s, text) == Reaction(s.(search := text), [OpenChanged(true)])
  {
  }

  /** A control whose open state belongs to the parent never changes it itself:
      every request goes out as a notice. */
  lemma ControlledNeverOpensItself(p: Props, s: State, key: Keyboard.Key, text: string)
    requires p.controlledOpen.Some?
    ensures HandleKeyDown(p, s, key).state.internalOpen == s.internalOpen
    ensures OnInput(p, s, text).state.internalOpen == s.internalOpen
    ensures OnClick(p, s).state.internalOpen == s.internalOpen
  {
  }

  /** Two clicks on an editable control that owns its open state restore it. */
  lemma ClickTwiceRestores(p: Props, s: State)
    requires p.controlledOpen.None? && !p.readOnly
    ensures OnClick(p, OnClick(p, s).state).state == s
  {
  }

  /** Typing into a closed, editable control that owns its open state opens it with
      the typed text as the search; the effect leaves the search alone. */
  lemma TypingOpens(p: Props, s: State, text: string)
    requires p.controlledOpen.None? && !p.readOnly && !s.internalOpen
    ensures var r := OnInput(p, s, text);
            IsOpen(p, r.state) && AfterRender(false, true, r.state).search == text
            && Shown(p, r.state) == text
  {
  }
}
