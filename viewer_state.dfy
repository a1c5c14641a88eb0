/** What one call of setNode or resetComponent does to the viewer's state
    (the last file shown and the visible card) and which panel calls it
    makes, as functions of the configuration and the state before. */
module ViewerState {
  import opened Wrappers
  import opened MediaRules

  /** The card of the card layout that is visible. Being a two-valued
      enumeration, exactly one of the two is visible at any time. */
  datatype Layer = ImageLayer | VideoLayer

  /** A call into a panel backend. */
  datatype Event =
    | ResetVideoPanel
    | ResetImagePanel
    | ShowImage(file: File)
    | SetupVideo(file: File)

  /** The mutable part of the viewer. */
  datatype State = State(lastFile: Option<File>, visible: Layer)

  /** The state after a call, and the panel calls it made, in order. */
  datatype Step = Step(next: State, calls: seq<Event>)

  /** A panel call that renders a file. */
  predicate IsRender(e: Event)
  {
    e.ShowImage? || e.SetupVideo?
  }

  /** `f` is the file recorded as shown last: AbstractFile.equals compares
      the files' object ids, not the attributes read from them. */
  predicate IsLastFile(s: State, f: File)
  {
    s.lastFile.Some? && s.lastFile.value.id == f.id
  }

  /** The state right after construction: no file, IMAGE card shown. */
  const Initial: State := State(None, ImageLayer)

  /** resetComponent: reset the video panel, then the image panel, then
      forget the last file; the visible card stays. */
  function ResetSpec(s: State): Step
  {
    Step(s.(lastFile := None), [ResetVideoPanel, ResetImagePanel])
  }

  /** setNode. `renderThrows` says whether the render call, if one is made,
      throws; the exception is swallowed before the card is switched. */
  function SetNodeSpec(p: Panels, s: State, node: Node, renderThrows: bool): Step
  {
    match node
    case Null => ResetSpec(s)
    case Selected(None) => ResetSpec(s)
    case Selected(Some(file)) =>
      if IsLastFile(s, file) then Step(s, [])
      else
        var recorded := s.(lastFile := Some(file));
        if ImageByExt(p, file) then
          Step(if renderThrows then recorded else recorded.(visible := ImageLayer), [ShowImage(file)])
        else if ImageByHeader(p, file) then
          Step(if renderThrows then recorded else recorded.(visible := ImageLayer), [ShowImage(file)])
        else if VideoRule(p, file) then
          Step(if renderThrows then recorded else recorded.(visible := VideoLayer), [SetupVideo(file)])
        else
          Step(recorded, [])
  }

  /** A null node, or a node without a file, resets both panels and clears
      the last file, whatever the state was. */
  lemma SetNodeWithoutFileResets(p: Panels, s: State, node: Node, renderThrows: bool)
    requires node.Null? || node.lookup.None?
    ensures SetNodeSpec(p, s, node, renderThrows) == Step(State(None, s.visible), [ResetVideoPanel, ResetImagePanel])
  {
  }

  /** The file shown last is not loaded again, even when its attributes read
      differently now: no panel call, no change. */
  lemma SetNodeSameFileIsNoop(p: Panels, s: State, f: File, renderThrows: bool)
    requires IsLastFile(s, f)
    ensures SetNodeSpec(p, s, Selected(Some(f)), renderThrows) == Step(s, [])
  {
  }

  /** A file re-selected after its type-signature attributes changed is the
      same file: it is not rendered again. */
  lemma SetNodeReselectIgnoresAttributes(p: Panels, v: Layer, f: File, sigs: Option<seq<string>>, renderThrows: bool)
    ensures var s := State(Some(f), v);
      SetNodeSpec(p, s, Selected(Some(f.(typeSigs := sigs))), renderThrows) == Step(s, [])
  {
  }

  /** A new file is recorded as the last file before anything is rendered,
      and stays recorded when the render throws. */
  lemma SetNodeRecordsNewFile(p: Panels, s: State, f: File, renderThrows: bool)
    requires !IsLastFile(s, f)
    ensures SetNodeSpec(p, s, Selected(Some(f)), renderThrows).next.lastFile == Some(f)
  {
  }

  /** The if/else chain: the image rules win over the video rule; the
      chosen panel alone renders and its card becomes visible unless the
      render throws; with no rule satisfied, nothing renders and the
      visible card stays. */
  lemma SetNodeDispatch(p: Panels, s: State, f: File, renderThrows: bool)
    requires !IsLastFile(s, f)
    ensures var r := SetNodeSpec(p, s, Selected(Some(f)), renderThrows);
      if ImageByExt(p, f) || ImageByHeader(p, f) then
        r.calls == [ShowImage(f)] && r.next.visible == (if renderThrows then s.visible else ImageLayer)
      else if VideoRule(p, f) then
        r.calls == [SetupVideo(f)] && r.next.visible == (if renderThrows then s.visible else VideoLayer)
      else
        r.calls == [] && r.next.visible == s.visible
  {
  }

  /** Calling setNode twice in a row with the same file renders at most once:
      the second call makes no panel call and changes nothing. */
  lemma SetNodeTwiceRendersOnce(p: Panels, s: State, node: Node, t1: bool, t2: bool)
    requires node.Selected? && node.lookup.Some?
    ensures var r1 := SetNodeSpec(p, s, node, t1);
      var r2 := SetNodeSpec(p, r1.next, node, t2);
      r2 == Step(r1.next, []) && |r1.calls + r2.calls| <= 1
  {
  }

  /** For a non-empty new file, setNode renders exactly when isSupported
      accepts the node. */
  lemma SetNodeRendersIffSupported(p: Panels, s: State, f: File, renderThrows: bool)
    requires !IsLastFile(s, f) && f.size != 0
    ensures var r := SetNodeSpec(p, s, Selected(Some(f)), renderThrows);
      (exists i :: 0 <= i < |r.calls| && IsRender(r.calls[i])) <==> IsSupported(p, Selected(Some(f)))
  {
    var r := SetNodeSpec(p, s, Selected(Some(f)), renderThrows);
    if IsSupported(p, Selected(Some(f))) {
      assert IsRender(r.calls[0]);
    }
  }

  /** setNode does not look at the size: an empty file that isSupported
      rejects is rendered by the same panel, and leaves the same card
      visible, as the same file with any other size. */
  lemma SetNodeIgnoresSize(p: Panels, s: State, f: File, renderThrows: bool)
    requires !IsLastFile(s, f)
    ensures var f0 := f.(size := 0);
      var a := SetNodeSpec(p, s, Selected(Some(f0)), renderThrows);
      var b := SetNodeSpec(p, s, Selected(Some(f)), renderThrows);
      a.next == b.next.(lastFile := Some(f0)) && |a.calls| == |b.calls|
      && forall i :: 0 <= i < |a.calls| ==>
           IsRender(a.calls[i])
           && (a.calls[i] == ShowImage(f0) <==> b.calls[i] == ShowImage(f))
           && (a.calls[i] == SetupVideo(f0) <==> b.calls[i] == SetupVideo(f))
    ensures !IsSupported(p, Selected(Some(f.(size := 0))))
  {
  }

  /** After resetComponent, setNode makes the same panel calls and ends in
      the same state as the first setNode after construction, except that
      the card visible before the reset stays when no render switches it. */
  lemma ResetThenSetNodeIsFresh(p: Panels, s: State, node: Node, renderThrows: bool)
    ensures var after := SetNodeSpec(p, ResetSpec(s).next, node, renderThrows);
      var first := SetNodeSpec(p, Initial, node, renderThrows);
      after.calls == first.calls
      && after.next == (if |first.calls| == 1 && !renderThrows then first.next
                        else first.next.(visible := s.visible))
  {
  }

  /** resetComponent always clears the last file, keeps the visible card and
      resets both panels, video first. */
  lemma ResetClears(s: State)
    ensures ResetSpec(s).next == State(None, s.visible)
    ensures ResetSpec(s).calls == [ResetVideoPanel, ResetImagePanel]
  {
  }
}
