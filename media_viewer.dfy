/** The media content viewer object: its configuration, the image extension
    array built at construction, the last file shown and the visible card.
    Panel calls are recorded in a ghost log instead of being performed. */
module MediaViewer {
  import opened Wrappers
  import opened MediaRules
  import opened ViewerState

  class DataContentViewerMedia {
    const videoPanelInited: bool
    const imagePanelInited: bool
    const videoExtensions: seq<string>
    const supportedMimes: seq<string>
    var imageExtensions: array<string>
    var lastFile: Option<File>
    var visible: Layer
    /** The panel calls made so far, oldest first. */
    ghost var calls: seq<Event>

    /** The configuration the decision rules read. */
    function Config(): Panels
      reads this, imageExtensions
    {
      Panels(imagePanelInited, videoPanelInited, imageExtensions[..], videoExtensions, supportedMimes)
    }

    /** The mutable state setNode and resetComponent act on. */
    function Current(): State
      reads this
    {
      State(lastFile, visible)
    }

    /** The panels' init flags, extension and mime lists are what the panel
        backends report; `readerSuffixes` is what the image reader library
        reports. */
    constructor (videoInited: bool, imageInited: bool, videoExts: seq<string>, mimes: seq<string>,
                 readerSuffixes: seq<string>)
      ensures Config() == Panels(imageInited, videoInited, DotPrefixed(readerSuffixes), videoExts, mimes)
      ensures Current() == Initial
      ensures calls == []
      ensures fresh(imageExtensions)
    {
      videoPanelInited := videoInited;
      imagePanelInited := imageInited;
      videoExtensions := videoExts;
      supportedMimes := mimes;
      imageExtensions := new string[0];
      lastFile := None;
      visible := ImageLayer;
      calls := [];
      new;
      CustomizeComponents(readerSuffixes);
    }

    /** customizeComponents: one image extension per reader suffix, the
        suffix with a dot in front, then the IMAGE card shown. */
    method CustomizeComponents(readerSuffixes: seq<string>)
      modifies this`imageExtensions, this`visible
      ensures fresh(imageExtensions)
      ensures imageExtensions[..] == DotPrefixed(readerSuffixes)
      ensures visible == ImageLayer
    {
      imageExtensions := new string[|readerSuffixes|];
      for i := 0 to |readerSuffixes|
        invariant fresh(imageExtensions) && imageExtensions.Length == |readerSuffixes|
        invariant forall j :: 0 <= j < i ==> imageExtensions[j] == "." + readerSuffixes[j]
      {
        var suffix := readerSuffixes[i];
        imageExtensions[i] := "." + suffix;
      }
      SwitchPanels(false);
    }

    /** switchPanels: exactly one card is shown, the VIDEO one when asked. */
    method SwitchPanels(showVideo: bool)
      modifies this`visible
      ensures visible == if showVideo then VideoLayer else ImageLayer
    {
      if showVideo {
        visible := VideoLayer;
      } else {
        visible := ImageLayer;
      }
    }

    /** resetComponent: both panels reset, the last file forgotten. */
    method ResetComponent()
      modifies this`lastFile, this`calls
      ensures Current() == ResetSpec(old(Current())).next
      ensures calls == old(calls) + ResetSpec(old(Current())).calls
    {
      calls := calls + [ResetVideoPanel];
      calls := calls + [ResetImagePanel];
      lastFile := None;
    }

    /** setNode. `renderThrows` stands for the render backend throwing; the
        exception is caught and the viewer carries on. */
    method SetNode(selectedNode: Node, renderThrows: bool)
      modifies this`lastFile, this`visible, this`calls
      ensures var step := SetNodeSpec(old(Config()), old(Current()), selectedNode, renderThrows);
        Current() == step.next && calls == old(calls) + step.calls
    {
      if selectedNode.Null? {
        ResetComponent();
        return;
      }
      var file := selectedNode.lookup;
      if file.None? {
        ResetComponent();
        return;
      }
      var f := file.value;
      if lastFile.Some? && lastFile.value.id == f.id {
        return;
      }
      lastFile := Some(f);
      if imagePanelInited && ContainsExt(f.name, imageExtensions[..]) {
        calls := calls + [ShowImage(f)];
        if !renderThrows {
          SwitchPanels(false);
        }
      } else if imagePanelInited && f.jpegHeader {
        calls := calls + [ShowImage(f)];
        if !renderThrows {
          SwitchPanels(false);
        }
      } else {
        var mimeOk := false;
        if videoPanelInited {
          mimeOk := ContainsMimeType(f, supportedMimes);
        }
        if videoPanelInited && mimeOk
           && (ContainsExt(f.name, videoExtensions) || ContainsExt(f.name, AudioExtensions)) {
          calls := calls + [SetupVideo(f)];
          if !renderThrows {
            SwitchPanels(true);
          }
        }
      }
    }
  }
}
