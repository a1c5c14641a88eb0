/** The stateless decision rules of the media content viewer: extension
    matching, type-signature matching, whether a node can be shown at all
    and how strongly the viewer wants to show it. */
module MediaRules {
  import opened Wrappers
  import opened Text

  /** An AbstractFile as the viewer sees it. `id` is its object id, which
      file equality compares. `jpegHeader` is what the
      JPEG-header probe answers for this file; `typeSigs` is the value list
      of its file-type-signature attributes, None when the lookup throws. */
  datatype File = File(
    id: nat,
    name: string,
    size: int,
    unalloc: bool,
    jpegHeader: bool,
    typeSigs: Option<seq<string>>)

  /** A selected node: null, or a node whose lookup yields a file or nothing. */
  datatype Node = Null | Selected(lookup: Option<File>)

  /** The viewer's configuration, fixed when it is built: the init flags of
      the two panels, the image and video extension lists and the video
      panel's mime types. */
  datatype Panels = Panels(
    imageInited: bool,
    videoInited: bool,
    imageExts: seq<string>,
    videoExts: seq<string>,
    mimes: seq<string>)

  /** Extensions the video panel also plays, besides its own. */
  const AudioExtensions: seq<string> := [".mp3", ".wav", ".wma"]

  /** `c` does not occur in `s`. */
  predicate Lacks(s: string, c: char)
  {
    forall j :: 0 <= j < |s| ==> s[j] != c
  }

  /** The extension containsExt compares: from the last dot to the end,
      lower-cased; empty when the name has no dot. */
  function Extension(name: string): string
  {
    var extStart := LastIndexOf(name, '.');
    if extStart == -1 then "" else Lower(name[extStart..])
  }

  /** The extension is the lower-cased suffix of the name that starts at a
      dot and has no further dot, and it is "" exactly when there is no dot. */
  lemma ExtensionShape(name: string)
    ensures var ext := Extension(name);
      |ext| <= |name| && ext == Lower(name[|name| - |ext|..])
      && (Lacks(name, '.') <==> ext == "")
      && (ext != "" ==> ext[0] == '.' && Lacks(ext[1..], '.'))
      && IsLower(ext)
  {
    var k := LastIndexOf(name, '.');
    if k != -1 {
      DotSuffixFacts(name, k);
    }
  }

  /** Lower-casing the suffix from the last dot keeps it a dot followed by
      no dot. */
  lemma DotSuffixFacts(name: string, k: nat)
    requires k < |name| && name[k] == '.'
    requires forall j :: k < j < |name| ==> name[j] != '.'
    ensures var ext := Lower(name[k..]);
      |ext| == |name| - k && ext[0] == '.' && Lacks(ext[1..], '.') && !Lacks(name, '.')
  {
    var t := name[k..];
    var ext := Lower(t);
    LowerKeepsNonLetter(t, '.');
    assert t[0] == '.';
    forall j | 0 <= j < |ext| - 1 ensures ext[1..][j] != '.' {
      assert t[j + 1] == name[k + j + 1];
    }
  }

  /** containsExt: the name's extension is one of `exts`. */
  predicate ContainsExt(name: string, exts: seq<string>)
  {
    Extension(name) in exts
  }

  /** A name without a dot matches exactly when "" is listed. */
  lemma ContainsExtWithoutDot(name: string, exts: seq<string>)
    requires Lacks(name, '.')
    ensures ContainsExt(name, exts) <==> "" in exts
  {
    assert LastIndexOf(name, '.') == -1;
  }

  /** The extension of "stem.suffix" with a dot-free suffix is "." and the
      lower-cased suffix. */
  lemma ExtensionOfSuffix(stem: string, suffix: string)
    requires Lacks(suffix, '.')
    ensures Extension(stem + "." + suffix) == "." + Lower(suffix)
  {
    var name := stem + "." + suffix;
    assert forall j :: |stem| < j < |name| ==> name[j] == suffix[j - |stem| - 1];
    LastIndexOfUnique(name, '.', |stem|);
    assert name[|stem|..] == "." + suffix;
    var low := Lower("." + suffix);
    assert forall j :: 0 <= j < |low| ==> low[j] == ("." + Lower(suffix))[j];
  }

  /** A name ending in a dot and a dot-free suffix matches exactly when the
      lower-cased suffix, dot-prefixed, is listed. */
  lemma ContainsExtOfSuffix(stem: string, suffix: string, exts: seq<string>)
    requires Lacks(suffix, '.')
    ensures ContainsExt(stem + "." + suffix, exts) <==> "." + Lower(suffix) in exts
  {
    ExtensionOfSuffix(stem, suffix);
  }

  /** Matching is case-insensitive: lower-casing the name first changes nothing. */
  lemma ContainsExtIgnoresCase(name: string, exts: seq<string>)
    ensures ContainsExt(Lower(name), exts) == ContainsExt(name, exts)
  {
    var k := LastIndexOf(name, '.');
    LowerKeepsLastIndex(name, '.');
    if k != -1 {
      LowerSuffix(name, k);
      LowerTwice(name[k..]);
    }
  }

  /** Any "*.MP3", "A.MP3" for one, matches [".mp3"]: the comparison
      ignores case. */
  lemma ContainsExtUpperCaseExample(name: string, stem: string)
    requires name == stem + ".MP3"
    ensures ContainsExt(name, [".mp3"])
  {
    UpperMp3Facts();
    assert name == stem + "." + "MP3";
    ExtensionOfSuffix(stem, "MP3");
  }

  /** "MP3" has no dot, lower-cases to "mp3", and ".MP3" is "." + "MP3". */
  lemma UpperMp3Facts()
    ensures Lacks("MP3", '.')
    ensures "." + Lower("MP3") == ".mp3"
    ensures "." + "MP3" == ".MP3"
  {
    var low := Lower("MP3");
    assert low[0] == LowerChar('M') == 'm';
    assert low[1] == LowerChar('P') == 'p';
    assert low[2] == LowerChar('3') == '3';
  }

  /** No "*.mp3x", "a.mp3x" for one, matches [".mp3"]: the whole extension
      must be listed. */
  lemma ContainsExtLongerExample(name: string, stem: string)
    requires name == stem + ".mp3x"
    ensures !ContainsExt(name, [".mp3"])
  {
    Mp3xFacts();
    assert name == stem + "." + "mp3x";
    ExtensionOfSuffix(stem, "mp3x");
  }

  /** "mp3x" has no dot, ".mp3x" is "." + "mp3x", and lower-casing it
      cannot give "mp3". */
  lemma Mp3xFacts()
    ensures Lacks("mp3x", '.')
    ensures "." + Lower("mp3x") != ".mp3"
    ensures "." + "mp3x" == ".mp3x"
  {
    assert |Lower("mp3x")| == 4;
  }

  /** The dot-less "mp3" does not match [".mp3"]. */
  lemma ContainsExtNoDotExample()
    ensures !ContainsExt("mp3", [".mp3"])
  {
    assert Lacks("mp3", '.');
    ContainsExtWithoutDot("mp3", [".mp3"]);
  }

  /** containsMimeType as a definition: an empty allow-list accepts, a
      failed lookup rejects, otherwise some detected signature is allowed. */
  predicate MimeTypeAccepted(mimeTypes: seq<string>, typeSigs: Option<seq<string>>)
  {
    if |mimeTypes| == 0 then true
    else match typeSigs
      case None => false
      case Some(sigs) => exists i :: 0 <= i < |sigs| && sigs[i] in mimeTypes
  }

  /** containsMimeType: the search loop with early return over the file's
      type-signature attributes. */
  method ContainsMimeType(file: File, mimeTypes: seq<string>) returns (found: bool)
    ensures found == MimeTypeAccepted(mimeTypes, file.typeSigs)
  {
    if |mimeTypes| == 0 {
      return true;
    }
    match file.typeSigs
    case None =>
      return false;
    case Some(sigs) =>
      if |sigs| != 0 {
        for k := 0 to |sigs|
          invariant forall j :: 0 <= j < k ==> sigs[j] !in mimeTypes
        {
          if sigs[k] in mimeTypes {
            return true;
          }
        }
        return false;
      }
      return false;
  }

  /** The four cases of containsMimeType. */
  lemma MimeTypeAcceptedCases(mimeTypes: seq<string>, typeSigs: Option<seq<string>>)
    ensures |mimeTypes| == 0 ==> MimeTypeAccepted(mimeTypes, typeSigs)
    ensures |mimeTypes| != 0 && typeSigs == None ==> !MimeTypeAccepted(mimeTypes, typeSigs)
    ensures |mimeTypes| != 0 && typeSigs == Some([]) ==> !MimeTypeAccepted(mimeTypes, typeSigs)
    ensures |mimeTypes| != 0 && typeSigs.Some? ==>
      (MimeTypeAccepted(mimeTypes, typeSigs) <==> exists s :: s in typeSigs.value && s in mimeTypes)
  {
  }

  /** The first image rule of setNode: image panel up and an image extension. */
  predicate ImageByExt(p: Panels, f: File)
  {
    p.imageInited && ContainsExt(f.name, p.imageExts)
  }

  /** The second image rule of setNode: image panel up and a JPEG header. */
  predicate ImageByHeader(p: Panels, f: File)
  {
    p.imageInited && f.jpegHeader
  }

  /** The video rule: video panel up, an audio or video extension, and an
      accepted type signature. */
  predicate VideoRule(p: Panels, f: File)
  {
    p.videoInited
    && MimeTypeAccepted(p.mimes, f.typeSigs)
    && (ContainsExt(f.name, p.videoExts) || ContainsExt(f.name, AudioExtensions))
  }

  /** isSupported: false for a null node, a node without a file or an empty
      file; otherwise true exactly when the image rule or the video rule
      holds, so never when neither panel is up. */
  function IsSupported(p: Panels, node: Node): (b: bool)
    ensures b <==> node.Selected? && node.lookup.Some? && node.lookup.value.size != 0
                   && (ImageByExt(p, node.lookup.value) || ImageByHeader(p, node.lookup.value)
                       || VideoRule(p, node.lookup.value))
    ensures !p.imageInited && !p.videoInited ==> !b
  {
    if node.Null? then false
    else if node.lookup.None? then false
    else
      var file := node.lookup.value;
      if file.size == 0 then false
      else
        var name := Lower(file.name);
        ContainsExtIgnoresCase(file.name, p.imageExts);
        ContainsExtIgnoresCase(file.name, p.videoExts);
        ContainsExtIgnoresCase(file.name, AudioExtensions);
        if p.imageInited && ContainsExt(name, p.imageExts) then true
        else if p.imageInited && file.jpegHeader then true
        else if p.videoInited
                && (ContainsExt(name, AudioExtensions) || ContainsExt(name, p.videoExts))
                && MimeTypeAccepted(p.mimes, file.typeSigs) then true
        else false
  }

  /** isPreferred on a non-null node: 0 when there is no file or the file is
      an unallocated one with a video extension, 7 otherwise. */
  function IsPreferred(p: Panels, node: Node): (r: int)
    requires node.Selected?
    ensures r == 0 || r == 7
    ensures r == 0 <==> node.lookup.None?
                        || (ContainsExt(node.lookup.value.name, p.videoExts) && node.lookup.value.unalloc)
  {
    if node.lookup.None? then 0
    else
      var file := node.lookup.value;
      var name := Lower(file.name);
      var deleted := file.unalloc;
      ContainsExtIgnoresCase(file.name, p.videoExts);
      if ContainsExt(name, p.videoExts) && deleted then 0 else 7
  }

  /** The preference looks only at the video extensions, the name and the
      UNALLOC flag: not at the init flags, the other lists or the size. */
  lemma IsPreferredIgnoresInitsAndSize(p: Panels, q: Panels, f: File, size: int)
    requires p.videoExts == q.videoExts
    ensures IsPreferred(p, Selected(Some(f))) == IsPreferred(q, Selected(Some(f.(size := size))))
  {
  }

  /** The extension of any "*.mp3" is ".mp3". */
  lemma ExtensionOfMp3(stem: string)
    ensures Extension(stem + ".mp3") == ".mp3"
  {
    LowerMp3Facts();
    assert stem + ".mp3" == stem + "." + "mp3";
    ExtensionOfSuffix(stem, "mp3");
  }

  /** "mp3" has no dot and is lower case; ".mp3" is "." + "mp3". */
  lemma LowerMp3Facts()
    ensures Lacks("mp3", '.')
    ensures "." + Lower("mp3") == ".mp3"
    ensures "." + "mp3" == ".mp3"
  {
    var low := Lower("mp3");
    assert low[0] == LowerChar('m') == 'm';
    assert low[1] == LowerChar('p') == 'p';
    assert low[2] == LowerChar('3') == '3';
  }

  /** A deleted file with an audio extension that is not a video extension
      is still preferred: isPreferred does not consult the audio list. */
  lemma DeletedAudioStillPreferred(p: Panels, f: File, stem: string)
    requires ".mp3" !in p.videoExts
    requires f.name == stem + ".mp3" && f.unalloc
    ensures IsPreferred(p, Selected(Some(f))) == 7
  {
    ExtensionOfMp3(stem);
    assert !ContainsExt(f.name, p.videoExts);
  }

  /** The UNALLOC flag never changes whether a node is supported, only how
      strongly it is preferred: a deleted video is supported but ranked 0. */
  lemma DeletedVideoSupportedButNotPreferred(p: Panels, f: File)
    requires ContainsExt(f.name, p.videoExts)
    ensures IsSupported(p, Selected(Some(f.(unalloc := true)))) == IsSupported(p, Selected(Some(f.(unalloc := false))))
    ensures IsPreferred(p, Selected(Some(f.(unalloc := true)))) == 0
    ensures IsPreferred(p, Selected(Some(f.(unalloc := false)))) == 7
  {
  }

  /** The extension list customizeComponents builds from the reader suffixes. */
  function DotPrefixed(suffixes: seq<string>): (exts: seq<string>)
    ensures |exts| == |suffixes|
    ensures forall i :: 0 <= i < |suffixes| ==> exts[i] == "." + suffixes[i]
  {
    if suffixes == [] then [] else ["." + suffixes[0]] + DotPrefixed(suffixes[1..])
  }

  /** Every lower-case, dot-free reader suffix makes "stem.suffix" an image
      extension match. */
  lemma DotPrefixedMatches(stem: string, suffixes: seq<string>, i: nat)
    requires i < |suffixes| && Lacks(suffixes[i], '.') && IsLower(suffixes[i])
    ensures ContainsExt(stem + "." + suffixes[i], DotPrefixed(suffixes))
  {
    ContainsExtOfSuffix(stem, suffixes[i], DotPrefixed(suffixes));
    LowerOfLower(suffixes[i]);
  }

  /** A dot-prefixed string is listed in DotPrefixed(suffixes) exactly when
      the string without its dot is one of the suffixes. */
  lemma DotPrefixedMember(x: string, suffixes: seq<string>)
    ensures "." + x in DotPrefixed(suffixes) <==> x in suffixes
  {
    var exts := DotPrefixed(suffixes);
    if "." + x in exts {
      var i :| 0 <= i < |exts| && exts[i] == "." + x;
      assert x == exts[i][1..] == suffixes[i];
    }
    if x in suffixes {
      var i :| 0 <= i < |suffixes| && suffixes[i] == x;
      assert exts[i] == "." + x;
    }
  }

  /** The audio list is the reader-style list of "mp3", "wav" and "wma",
      each with a dot in front. */
  lemma AudioExtensionsDotPrefixed()
    ensures AudioExtensions == DotPrefixed(["mp3", "wav", "wma"])
  {
    var exts := DotPrefixed(["mp3", "wav", "wma"]);
    assert exts[0] == "." + "mp3" == ".mp3";
    assert exts[1] == "." + "wav" == ".wav";
    assert exts[2] == "." + "wma" == ".wma";
  }

  /** The audio rule ignores case: "stem.suffix" with a dot-free suffix has
      an audio extension exactly when the lower-cased suffix is "mp3", "wav"
      or "wma". */
  lemma AudioExtensionsMatch(stem: string, suffix: string)
    requires Lacks(suffix, '.')
    ensures ContainsExt(stem + "." + suffix, AudioExtensions) <==> Lower(suffix) in ["mp3", "wav", "wma"]
  {
    ContainsExtOfSuffix(stem, suffix, AudioExtensions);
    AudioExtensionsDotPrefixed();
    DotPrefixedMember(Lower(suffix), ["mp3", "wav", "wma"]);
  }
}
