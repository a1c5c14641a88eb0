# Media content viewer arbitration (Autopsy `DataContentViewerMedia`)

This project models the decision logic of Autopsy's media content viewer:
the rules that say whether a selected node's file can be shown by the image
panel or by the video/audio panel, how strongly the viewer asks to be the
one that shows it, and the small state machine that remembers the last file
shown and picks which of the two cards (IMAGE or VIDEO) is visible.

Modules:

- `Wrappers` (`wrappers.dfy`): `Option`. It stands for a Java reference
  that may be null, or for a lookup that may throw.
- `Text` (`text.dfy`): `String.toLowerCase` (ASCII letters only) and
  `String.lastIndexOf`, with their characterisations.
- `MediaRules` (`media_rules.dfy`): the stateless part. `File` is what the
  viewer reads of an `AbstractFile`: its name, size and UNALLOC flag, the
  answer of the JPEG-header probe, and its type-signature attribute values
  (`None` when the lookup throws `TskCoreException`). `Node` is a null node,
  or a node whose lookup yields a file or no file. `Panels` holds the
  configuration fixed at construction. The module defines `containsExt`,
  `containsMimeType` (a definition plus the search loop proved equal to it),
  `isSupported`, `isPreferred` and the extension list `customizeComponents`
  builds.
- `ViewerState` (`viewer_state.dfy`): `setNode` and `resetComponent` as
  functions from the configuration and the state before to the state after
  and the list of panel calls made. The lemmas about `setNode` and
  `resetComponent` are stated over these functions.
- `MediaViewer` (`media_viewer.dfy`): the class `DataContentViewerMedia`.
  It has the source's fields: the init flags, the extension and mime lists,
  the `imageExtensions` array, `lastFile` and the visible card. Its
  constructor fills the array in place, and `SetNode`, `ResetComponent` and
  `SwitchPanels` update the fields. The postconditions of `SetNode` and
  `ResetComponent` tie the new state, and the ghost log of panel calls, to
  the `ViewerState` functions; that of `CustomizeComponents` ties the array
  to `MediaRules.DotPrefixed`, and that of `SwitchPanels` names the card
  shown.

External collaborators are inputs:

- the panels' `isInited` flags and their extension and mime lists;
- `ImageIO.getReaderFileSuffixes`, as a sequence of suffixes;
- `ImageUtils.isJpegFileHeader`, as a per-file boolean;
- `getGenInfoAttributes`, as a per-file optional list of values;
- whether a render call throws, as a boolean argument of `SetNode`.

Render and reset calls are not performed. They are appended to a ghost log
of `Event`s.

On these points the model follows the code:

- `setNode` picks the panel with an if/else chain in which the image rules
  come before the video rule; the first rule that holds decides.
- `lastFile` is recorded before the render is attempted, so it is set even
  when the render fails.
- `setNode` does not reject empty files. `isSupported` does.
- `isPreferred` consults only the video extensions. A deleted `.mp3` that
  is not also listed as a video extension is still preferred (7).
- `resetComponent` does not change the visible card.

## Model

| member | source | states |
|---|---|---|
| Text.Lower | Core/src/org/sleuthkit/autopsy/corecomponents/DataContentViewerMedia.java:259 | lower-casing keeps the length, lower-cases every character in place and leaves no upper-case letter |
| Text.LastIndexOf | Core/src/org/sleuthkit/autopsy/corecomponents/DataContentViewerMedia.java:256 | -1 exactly when the character does not occur; otherwise an occurrence after which it does not occur again |
| Text.LowerKeepsLastIndex | Core/src/org/sleuthkit/autopsy/corecomponents/DataContentViewerMedia.java:214 | lower-casing the name first leaves the position of its last dot unchanged |
| MediaRules.Extension | Core/src/org/sleuthkit/autopsy/corecomponents/DataContentViewerMedia.java:256-260 | definition without a contract of its own: the text from the last dot to the end, lower-cased, or "" without a dot; what it yields is stated by `MediaRules.ExtensionShape` and `MediaRules.ExtensionOfSuffix` |
| MediaRules.ContainsExt | Core/src/org/sleuthkit/autopsy/corecomponents/DataContentViewerMedia.java:255-262 | definition without a contract of its own: the extension is one of the list; its behaviour is stated by `MediaRules.ContainsExtOfSuffix`, `MediaRules.ContainsExtWithoutDot` and `MediaRules.ContainsExtIgnoresCase` |
| MediaRules.ExtensionShape | Core/src/org/sleuthkit/autopsy/corecomponents/DataContentViewerMedia.java:256-260 | the compared extension is the lower-cased suffix of the name that starts at a dot with no dot after it, and it is "" exactly when the name has no dot |
| MediaRules.ContainsExtOfSuffix | Core/src/org/sleuthkit/autopsy/corecomponents/DataContentViewerMedia.java:255-262 | "stem.suffix" with a dot-free suffix matches exactly when "." plus the lower-cased suffix is listed |
| MediaRules.ExtensionOfSuffix | Core/src/org/sleuthkit/autopsy/corecomponents/DataContentViewerMedia.java:256-260 | the extension of "stem.suffix" with a dot-free suffix is "." plus the lower-cased suffix, whatever dots the stem holds |
| MediaRules.ContainsExtWithoutDot | Core/src/org/sleuthkit/autopsy/corecomponents/DataContentViewerMedia.java:256-261 | a dot-less name matches exactly when "" is listed |
| MediaRules.ContainsExtIgnoresCase | Core/src/org/sleuthkit/autopsy/corecomponents/DataContentViewerMedia.java:255-262 | matching the lower-cased name gives the same answer as matching the name, so, for the lower-casing modelled, the lower-casing in isSupported and isPreferred and its absence in setNode agree |
| MediaRules.ContainsExtUpperCaseExample | Core/src/org/sleuthkit/autopsy/corecomponents/DataContentViewerMedia.java:255-262 | every "stem.MP3", "A.MP3" among them, matches [".mp3"] |
| MediaRules.ContainsExtLongerExample | Core/src/org/sleuthkit/autopsy/corecomponents/DataContentViewerMedia.java:255-262 | no "stem.mp3x", "a.mp3x" among them, matches [".mp3"] |
| MediaRules.ContainsExtNoDotExample | Core/src/org/sleuthkit/autopsy/corecomponents/DataContentViewerMedia.java:255-262 | the dot-less "mp3" does not match [".mp3"] |
| MediaRules.MimeTypeAccepted | Core/src/org/sleuthkit/autopsy/corecomponents/DataContentViewerMedia.java:263-280 | definition without a contract of its own: an empty allow-list accepts, a failed lookup rejects, otherwise some detected value must be allowed; `MediaRules.ContainsMimeType` is proved to compute it and `MediaRules.MimeTypeAcceptedCases` states its cases |
| MediaRules.ContainsMimeType | Core/src/org/sleuthkit/autopsy/corecomponents/DataContentViewerMedia.java:263-280 | the search loop with early return answers exactly the definition: an empty allow-list accepts, a failed lookup rejects, otherwise some detected value must be allowed |
| MediaRules.MimeTypeAcceptedCases | Core/src/org/sleuthkit/autopsy/corecomponents/DataContentViewerMedia.java:263-280 | the four cases: empty allow-list gives true; failed lookup gives false; no attributes gives false; otherwise true iff some value is in the list |
| MediaRules.ImageByExt | Core/src/org/sleuthkit/autopsy/corecomponents/DataContentViewerMedia.java:140 | definition without a contract of its own: the image panel is up and the name has an image extension; `ViewerState.SetNodeDispatch` and `MediaRules.IsSupported` state how it is used |
| MediaRules.ImageByHeader | Core/src/org/sleuthkit/autopsy/corecomponents/DataContentViewerMedia.java:143 | definition without a contract of its own: the image panel is up and the file has a JPEG header; `ViewerState.SetNodeDispatch` and `MediaRules.IsSupported` state how it is used |
| MediaRules.VideoRule | Core/src/org/sleuthkit/autopsy/corecomponents/DataContentViewerMedia.java:148-149 | definition without a contract of its own: the video panel is up, the type signature is accepted and the name has a video or audio extension; `ViewerState.SetNodeDispatch` and `MediaRules.IsSupported` state how it is used |
| MediaRules.AudioExtensionsMatch | Core/src/org/sleuthkit/autopsy/corecomponents/DataContentViewerMedia.java:50 | the audio list accepts "stem.suffix" with a dot-free suffix exactly when the lower-cased suffix is "mp3", "wav" or "wma" |
| MediaRules.IsSupported | Core/src/org/sleuthkit/autopsy/corecomponents/DataContentViewerMedia.java:201-234 | false for a null node, a node without a file or a zero-size file; otherwise true iff the image rule (inited and image extension or JPEG header) or the video rule (inited, audio or video extension, and mime accepted) holds; never true when neither panel is inited |
| MediaRules.IsPreferred | Core/src/org/sleuthkit/autopsy/corecomponents/DataContentViewerMedia.java:237-253 | only 0 or 7; 0 iff there is no file, or the file has a video extension and is UNALLOC |
| MediaRules.IsPreferredIgnoresInitsAndSize | Core/src/org/sleuthkit/autopsy/corecomponents/DataContentViewerMedia.java:237-253 | the preference depends on neither the init flags, the image and mime lists nor the file size |
| MediaRules.DeletedAudioStillPreferred | Core/src/org/sleuthkit/autopsy/corecomponents/DataContentViewerMedia.java:243-251 | a deleted "*.mp3" not listed as a video extension still gets 7, because the audio list is not consulted |
| MediaRules.DeletedVideoSupportedButNotPreferred | Core/src/org/sleuthkit/autopsy/corecomponents/DataContentViewerMedia.java:201-253 | for a file with a video extension, the UNALLOC flag does not change isSupported, but it moves the preference from 7 to 0 |
| MediaRules.DotPrefixed | Core/src/org/sleuthkit/autopsy/corecomponents/DataContentViewerMedia.java:87-94 | the image extension list has one entry per reader suffix, entry i being "." + suffix i |
| MediaRules.DotPrefixedMember | Core/src/org/sleuthkit/autopsy/corecomponents/DataContentViewerMedia.java:87-94 | "." + x is in the built extension list exactly when x is one of the reader suffixes |
| MediaRules.DotPrefixedMatches | Core/src/org/sleuthkit/autopsy/corecomponents/DataContentViewerMedia.java:87-94 | every lower-case, dot-free reader suffix makes "stem.suffix" an image-extension match |
| ViewerState.ResetSpec | Core/src/org/sleuthkit/autopsy/corecomponents/DataContentViewerMedia.java:193-198 | definition without a contract of its own: reset the video panel, then the image panel, then clear lastFile; stated by `ViewerState.ResetClears` and met by `MediaViewer.DataContentViewerMedia.ResetComponent` |
| ViewerState.SetNodeSpec | Core/src/org/sleuthkit/autopsy/corecomponents/DataContentViewerMedia.java:118-157 | definition without a contract of its own: the if/else chain of setNode as a step from the state before; its properties are stated by `ViewerState.SetNodeDispatch`, `ViewerState.SetNodeRendersIffSupported` and the other `ViewerState` lemmas, and `MediaViewer.DataContentViewerMedia.SetNode` is proved to follow it |
| ViewerState.SetNodeWithoutFileResets | Core/src/org/sleuthkit/autopsy/corecomponents/DataContentViewerMedia.java:119-130 | a null node or a node without a file resets the video panel, then the image panel, and clears lastFile; the visible card stays |
| ViewerState.SetNodeSameFileIsNoop | Core/src/org/sleuthkit/autopsy/corecomponents/DataContentViewerMedia.java:132-134 | a file with the id of lastFile makes no panel call and leaves the state as it was, whatever its attributes read now |
| ViewerState.SetNodeReselectIgnoresAttributes | Core/src/org/sleuthkit/autopsy/corecomponents/DataContentViewerMedia.java:132-134 | re-selecting the last file after its type-signature lookup changed makes no panel call and changes nothing |
| ViewerState.SetNodeRecordsNewFile | Core/src/org/sleuthkit/autopsy/corecomponents/DataContentViewerMedia.java:136-157 | a new file becomes lastFile whether or not a render happens or throws |
| ViewerState.SetNodeDispatch | Core/src/org/sleuthkit/autopsy/corecomponents/DataContentViewerMedia.java:140-153 | image rules before the video rule; only the chosen panel renders; its card becomes visible unless the render throws; with no rule, no call and the card stays |
| ViewerState.SetNodeTwiceRendersOnce | Core/src/org/sleuthkit/autopsy/corecomponents/DataContentViewerMedia.java:132-136 | two setNode calls in a row with the same node make at most one render call in all; the second changes nothing |
| ViewerState.SetNodeRendersIffSupported | Core/src/org/sleuthkit/autopsy/corecomponents/DataContentViewerMedia.java:140-153 | for a new, non-empty file, setNode renders exactly when isSupported accepts the node |
| ViewerState.SetNodeIgnoresSize | Core/src/org/sleuthkit/autopsy/corecomponents/DataContentViewerMedia.java:136-153 | an empty file is rendered by the same panel, with as many calls, and leaves the same visible card as the same file with any other size, although isSupported rejects it |
| ViewerState.ResetThenSetNodeIsFresh | Core/src/org/sleuthkit/autopsy/corecomponents/DataContentViewerMedia.java:193-198 | after resetComponent, setNode makes the calls and reaches the state of the first setNode after construction, except for the visible card left over when no render switches it |
| ViewerState.ResetClears | Core/src/org/sleuthkit/autopsy/corecomponents/DataContentViewerMedia.java:193-198 | resetComponent resets both panels, video first, clears lastFile and keeps the visible card |
| MediaViewer.DataContentViewerMedia.constructor | Core/src/org/sleuthkit/autopsy/corecomponents/DataContentViewerMedia.java:67-82 | the viewer keeps the panels' flags and lists, builds the dot-prefixed image extension array, has no last file, shows the IMAGE card and has made no panel call |
| MediaViewer.DataContentViewerMedia.CustomizeComponents | Core/src/org/sleuthkit/autopsy/corecomponents/DataContentViewerMedia.java:84-101 | a fresh array of the reader suffixes, each with a dot in front, filled by the index loop; the IMAGE card shown |
| MediaViewer.DataContentViewerMedia.SwitchPanels | Core/src/org/sleuthkit/autopsy/corecomponents/DataContentViewerMedia.java:164-171 | exactly one card is shown: VIDEO when asked for video, IMAGE otherwise |
| MediaViewer.DataContentViewerMedia.ResetComponent | Core/src/org/sleuthkit/autopsy/corecomponents/DataContentViewerMedia.java:193-198 | the fields and the panel-call log change exactly as resetComponent's step says |
| MediaViewer.DataContentViewerMedia.SetNode | Core/src/org/sleuthkit/autopsy/corecomponents/DataContentViewerMedia.java:118-157 | the fields and the panel-call log change exactly as setNode's step says, so every lemma about that step holds of the object |

## Left out

- Swing: `CardLayout`, `initComponents`, `getComponent`, `add`, and `getSize` with the `Dimension` handed to the renderers. The visible card is a two-valued enumeration, and the dimensions are not modelled.
- Rendering itself (`showImageFx`, `setupVideo`, `reset`) and `MediaViewVideoPanel.createVideoPanel`. The calls are entries in a ghost log. A render that throws is a boolean argument of `SetNode`.
- A panel `reset()` that throws is not modelled; resets always complete.
- Logging, `getTitle` and `getToolTip` (NbBundle strings), `createInstance` and the service-provider registration carry no decision logic.
- Text.Lower: only ASCII letters are lower-cased. Java's locale-dependent, full-Unicode `toLowerCase` is not modelled.
- `AbstractFile.equals` is not part of this model. Two files are taken to be equal when their object ids (`File.id`) are equal, whatever their other fields hold.
- MediaRules.IsPreferred: a null node raises a NullPointerException in the source, so its precondition excludes a null node.
- MediaRules.IsSupported: the second `videoPanel.isInited()` query is taken to return the flag captured at construction.
- Exceptions other than a render failure or a failed attribute lookup are not modelled. Examples are a JPEG-header probe that throws, or `getName` returning null.
