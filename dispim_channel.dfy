/** The diSPIM channel resolver. Fused images live under `Color1/` and `Color2/`, and the
    second channel is the same path with the other colour number. Single-view images live
    under one `### nm/` directory per wavelength, and the second channel is the image of
    the same name (ignoring case) in a sibling wavelength directory. */
module DiSpimChannelResolver {
  import opened JavaStrings
  import opened ImageNames
  import opened FileSystemProbe

  /** The index of the colour number: just past the first `Color`. */
  function ColorNumberIndex(image: string): int {
    IndexOf(image, Color) + |Color|
  }

  /** The fused branch: the path with its colour number 1 and 2 swapped, or "" for any
      other colour number. A path ending in `Color` has no colour number to read, and throws. */
  function FusedSwap(image: string): (r: Outcome<string>)
    requires Contains(image, Color)
    ensures r.Throws? <==> ColorNumberIndex(image) == |image|
    ensures r.Throws? ==> r.exception == StringIndexOutOfBounds
    ensures r == Value("") <==>
      ColorNumberIndex(image) < |image| && image[ColorNumberIndex(image)] != '1' && image[ColorNumberIndex(image)] != '2'
    ensures r.Value? && r.v != "" ==>
      && ColorNumberIndex(image) < |image|
      && (image[ColorNumberIndex(image)] == '1' ==> r.v == ReplaceCharAt(image, ColorNumberIndex(image), '2'))
      && (image[ColorNumberIndex(image)] == '2' ==> r.v == ReplaceCharAt(image, ColorNumberIndex(image), '1'))
  {
    var i := IndexOf(image, Color) + |Color|;
    var colorNumber :- CharAt(image, i);
    if colorNumber == '1' || colorNumber == '2' then
      var swap := if colorNumber == '1' then '2' else '1';
      Value(ReplaceCharAt(image, i, swap))
    else Value("")
  }

  /** Whether a directory name has the `### nm` shape of a wavelength directory. */
  predicate IsWavelengthDirName(name: string) {
    |name| == DiSpimDirectoryNameLength && EndsWith(name, DiSpimDirectoryEnd)
    && IsDigit(name[0]) && IsDigit(name[1]) && IsDigit(name[2])
  }

  /** The first entry whose lower-cased name is `lowerName`: its path, or None. */
  function MatchInDir(entries: seq<Entry>, lowerName: string): (r: Option<string>)
    ensures r.Some? ==>
      exists j :: 0 <= j < |entries| && entries[j].path == r.value && ToLower(entries[j].name) == lowerName
        && forall i :: 0 <= i < j ==> ToLower(entries[i].name) != lowerName
    ensures r.None? <==> forall j :: 0 <= j < |entries| ==> ToLower(entries[j].name) != lowerName
    decreases |entries|
  {
    if entries == [] then None
    else if ToLower(entries[0].name) == lowerName then Some(entries[0].path)
    else
      var rest := MatchInDir(entries[1..], lowerName);
      assert forall j :: 1 <= j < |entries| ==> entries[1..][j - 1] == entries[j];
      rest
  }

  /** Whether an entry of the top directory is a wavelength directory other than the image's own. */
  predicate IsOtherViewDir(e: Entry, ownDir: string) {
    e.isDirectory && ToLower(e.name) != ownDir && IsWavelengthDirName(e.name)
  }

  /** An image found in another wavelength directory of a listing. */
  ghost predicate FoundInOtherView(fs: FileSystem, entries: seq<Entry>, ownDir: string, lowerName: string, r: string) {
    exists i, j :: 0 <= i < |entries| && IsOtherViewDir(entries[i], ownDir)
      && entries[i].path in fs.listings
      && 0 <= j < |fs.listings[entries[i].path]|
      && fs.listings[entries[i].path][j].path == r
      && ToLower(fs.listings[entries[i].path][j].name) == lowerName
  }

  /** The scan over the top directory: in listing order, each other wavelength directory is
      searched for the image name; the first match is returned, and a directory that cannot
      be listed ends the scan with "". */
  function SingleViewScan(fs: FileSystem, entries: seq<Entry>, ownDir: string, lowerName: string): (r: string)
    ensures r != "" ==> FoundInOtherView(fs, entries, ownDir, lowerName, r)
    decreases |entries|
  {
    if entries == [] then ""
    else if IsOtherViewDir(entries[0], ownDir) && entries[0].path !in fs.listings then ""
    else if IsOtherViewDir(entries[0], ownDir) && MatchInDir(fs.listings[entries[0].path], lowerName).Some? then
      var j :| 0 <= j < |fs.listings[entries[0].path]|
        && fs.listings[entries[0].path][j].path == MatchInDir(fs.listings[entries[0].path], lowerName).value
        && ToLower(fs.listings[entries[0].path][j].name) == lowerName;
      MatchInDir(fs.listings[entries[0].path], lowerName).value
    else
      var rest := SingleViewScan(fs, entries[1..], ownDir, lowerName);
      FoundInRest(fs, entries, ownDir, lowerName, rest);
      rest
  }

  /** A finding in the listing past its first entry is a finding in the whole listing. */
  lemma FoundInRest(fs: FileSystem, entries: seq<Entry>, ownDir: string, lowerName: string, r: string)
    requires entries != []
    requires r != "" ==> FoundInOtherView(fs, entries[1..], ownDir, lowerName, r)
    ensures r != "" ==> FoundInOtherView(fs, entries, ownDir, lowerName, r)
  {
    if r != "" {
      var i, j :| 0 <= i < |entries[1..]| && IsOtherViewDir(entries[1..][i], ownDir)
        && entries[1..][i].path in fs.listings
        && 0 <= j < |fs.listings[entries[1..][i].path]|
        && fs.listings[entries[1..][i].path][j].path == r
        && ToLower(fs.listings[entries[1..][i].path][j].name) == lowerName;
      assert entries[1..][i] == entries[i + 1];
    }
  }

  /** The index of the last `/`, or else of the last BACKSLASH, or -1. */
  function LastSeparator(s: string): int {
    if LastIndexOf(s, ForwardSlash) != -1 then LastIndexOf(s, ForwardSlash) else LastIndexOf(s, Backslash)
  }

  /** The single-view branch: the image name after the last separator, the image's own
      directory name between the last two separators, and the scan of the directory above. */
  function SingleView(fs: FileSystem, image: string): (r: string)
    ensures r != "" ==>
      && 0 <= LastSeparator(image)
      && 0 <= LastSeparator(image[..LastSeparator(image)])
      && image[..LastSeparator(image[..LastSeparator(image)])] in fs.listings
  {
    var last := LastSeparator(image);
    if last == -1 then ""
    else
      var imageName := image[last + 1..];
      var second := LastSeparator(image[..last]);
      if second == -1 then ""
      else
        var top := image[..second];
        if top !in fs.listings then ""
        else SingleViewScan(fs, fs.listings[top], image[second + 1..last], ToLower(imageName))
  }

  /** A qualifying sibling that cannot be listed ends the scan with "" when no qualifying
      sibling before it holds the image. */
  lemma {:induction false} SingleViewScanStopsAtUnlisted(fs: FileSystem, entries: seq<Entry>, ownDir: string, lowerName: string, i: nat)
    requires i < |entries| && IsOtherViewDir(entries[i], ownDir) && entries[i].path !in fs.listings
    requires forall k :: 0 <= k < i && IsOtherViewDir(entries[k], ownDir) ==>
      entries[k].path in fs.listings && MatchInDir(fs.listings[entries[k].path], lowerName).None?
    ensures SingleViewScan(fs, entries, ownDir, lowerName) == ""
    decreases i
  {
    if i > 0 {
      assert forall k :: 0 <= k < i - 1 ==> entries[1..][k] == entries[k + 1];
      SingleViewScanStopsAtUnlisted(fs, entries[1..], ownDir, lowerName, i - 1);
    }
  }

  /** Past its early exits, the single-view branch is the scan of the directory above the
      image's own. */
  lemma SingleViewScansTop(fs: FileSystem, image: string, last: int, second: int)
    requires last == LastSeparator(image) && last != -1
    requires second == LastSeparator(image[..last]) && second != -1
    requires image[..second] in fs.listings
    ensures SingleView(fs, image)
      == SingleViewScan(fs, fs.listings[image[..second]], image[second + 1..last], ToLower(image[last + 1..]))
  {
  }

  /** What findSecondDiSPIMColorChannel returns: "" for an empty path; the fused swap when
      the path contains `Color`; else the single-view search when it contains `SPIM`;
      else "". */
  function SecondDiSpimChannel(fs: FileSystem, image: string): (r: Outcome<string>)
    ensures r.Throws? ==> r.exception == StringIndexOutOfBounds
  {
    if image == "" then Value("")
    else if Contains(image, Color) then FusedSwap(image)
    else if Contains(image, Spim) then Value(SingleView(fs, image))
    else Value("")
  }

  /** findSecondDiSPIMColorChannel, with its scan over the view directories and, inside it,
      over each candidate directory's listing. */
  method FindSecondDiSpimColorChannel(fs: FileSystem, image: string) returns (r: Outcome<string>)
    ensures r == SecondDiSpimChannel(fs, image)
  {
    if image == "" {
      return Value("");
    }
    if Contains(image, Color) {
      var i := IndexOf(image, Color) + |Color|;
      var colorNumber :- CharAt(image, i);
      var swap := '0';
      if colorNumber == '1' {
        swap := '2';
      } else if colorNumber == '2' {
        swap := '1';
      } else {
        return Value("");
      }
      return Value(image[..i] + [swap] + image[i + 1..]);
    } else if Contains(image, Spim) {
      var last := LastIndexOf(image, ForwardSlash);
      if last == -1 {
        last := LastIndexOf(image, Backslash);
        if last == -1 {
          return Value("");
        }
      }
      var imageName := image[last + 1..];
      var head := image[..last];
      var second := LastIndexOf(head, ForwardSlash);
      if second == -1 {
        second := LastIndexOf(head, Backslash);
        if second == -1 {
          return Value("");
        }
      }
      var top := image[..second];
      var ownDir := image[second + 1..last];
      if top !in fs.listings {
        return Value("");
      }
      SingleViewScansTop(fs, image, last, second);
      var name := ScanOtherViews(fs, fs.listings[top], ownDir, ToLower(imageName));
      return Value(name);
    }
    return Value("");
  }

  /** The loop over the top directory, with the loop over each other wavelength
      directory inside it. */
  method ScanOtherViews(fs: FileSystem, entries: seq<Entry>, ownDir: string, lowerName: string) returns (r: string)
    ensures r == SingleViewScan(fs, entries, ownDir, lowerName)
  {
    for i := 0 to |entries|
      invariant SingleViewScan(fs, entries[i..], ownDir, lowerName) == SingleViewScan(fs, entries, ownDir, lowerName)
    {
      assert entries[i..][1..] == entries[i + 1..];
      var e := entries[i];
      if e.isDirectory && ToLower(e.name) != ownDir && IsWavelengthDirName(e.name) {
        if e.path !in fs.listings {
          return "";
        }
        var found := FindInDir(fs.listings[e.path], lowerName);
        if found.Some? {
          return found.value;
        }
      }
    }
    return "";
  }

  /** The inner loop of the single-view scan: the first entry of a listing whose name, lower
      cased, is the image name. */
  method FindInDir(files: seq<Entry>, lowerName: string) returns (r: Option<string>)
    ensures r == MatchInDir(files, lowerName)
  {
    for j := 0 to |files|
      invariant MatchInDir(files[j..], lowerName) == MatchInDir(files, lowerName)
    {
      assert files[j..][1..] == files[j + 1..];
      if ToLower(files[j].name) == lowerName {
        return Some(files[j].path);
      }
    }
    return None;
  }


  /** Swapping the colour number twice gives the path back. */
  lemma FusedSwapInvolution(image: string, other: string)
    requires Contains(image, Color) && FusedSwap(image) == Value(other) && other != ""
    ensures Contains(other, Color) && ColorNumberIndex(other) == ColorNumberIndex(image)
    ensures FusedSwap(other) == Value(image)
  {
    var i := ColorNumberIndex(image);
    var c := if image[i] == '1' then '2' else '1';
    assert other == ReplaceCharAt(image, i, c);
    ReplaceCharAtKeepsIndices(image, i, c, Color);
    ReplaceCharAtRestores(image, i, c);
  }

  /** The two fused channels find each other. */
  lemma FusedChannelsArePaired(fs: FileSystem, image: string, other: string)
    requires Contains(image, Color)
    requires SecondDiSpimChannel(fs, image) == Value(other) && other != ""
    ensures SecondDiSpimChannel(fs, other) == Value(image)
  {
    assert FusedSwap(image) == Value(other);
    FusedSwapInvolution(image, other);
  }

  /** A single-view channel found is an entry, with the image's name up to case, of a
      wavelength directory beside the image's own in the directory above it. */
  lemma SingleViewSound(fs: FileSystem, image: string)
    requires !Contains(image, Color)
    requires SecondDiSpimChannel(fs, image).Value? && SecondDiSpimChannel(fs, image).v != ""
    ensures Contains(image, Spim)
    ensures var last := LastSeparator(image);
      && last != -1
      && var second := LastSeparator(image[..last]);
      && second != -1
      && image[..second] in fs.listings
      && FoundInOtherView(fs, fs.listings[image[..second]], image[second + 1..last], ToLower(image[last + 1..]),
           SecondDiSpimChannel(fs, image).v)
  {
    var last := LastSeparator(image);
    var second := LastSeparator(image[..last]);
    SingleViewScansTop(fs, image, last, second);
  }

  /** In a snapshot whose listed entries all exist, the single-view channel found exists. */
  lemma SingleViewExists(fs: FileSystem, image: string)
    requires Coherent(fs) && !Contains(image, Color)
    requires SecondDiSpimChannel(fs, image).Value? && SecondDiSpimChannel(fs, image).v != ""
    ensures Exists(fs, SecondDiSpimChannel(fs, image).v)
  {
    SingleViewSound(fs, image);
    var last := LastSeparator(image);
    var second := LastSeparator(image[..last]);
    var entries := fs.listings[image[..second]];
    var r := SecondDiSpimChannel(fs, image).v;
    var i, j :| 0 <= i < |entries| && IsOtherViewDir(entries[i], image[second + 1..last])
      && entries[i].path in fs.listings
      && 0 <= j < |fs.listings[entries[i].path]|
      && fs.listings[entries[i].path][j].path == r
      && ToLower(fs.listings[entries[i].path][j].name) == ToLower(image[last + 1..]);
    assert fs.listings[entries[i].path][j].path in fs.existing;
  }

  /** The scan returns the first match of the first other wavelength directory that has
      one, provided every other wavelength directory before it can be listed. */
  lemma {:induction false} SingleViewScanFinds(fs: FileSystem, entries: seq<Entry>, ownDir: string, lowerName: string, i: nat, p: string)
    requires i < |entries| && IsOtherViewDir(entries[i], ownDir) && entries[i].path in fs.listings
    requires MatchInDir(fs.listings[entries[i].path], lowerName) == Some(p)
    requires forall k :: 0 <= k < i && IsOtherViewDir(entries[k], ownDir) ==>
      entries[k].path in fs.listings && MatchInDir(fs.listings[entries[k].path], lowerName).None?
    ensures SingleViewScan(fs, entries, ownDir, lowerName) == p
    decreases i
  {
    if i > 0 {
      assert forall k :: 0 <= k < i - 1 ==> entries[1..][k] == entries[k + 1];
      SingleViewScanFinds(fs, entries[1..], ownDir, lowerName, i - 1, p);
      assert IsOtherViewDir(entries[0], ownDir) ==>
        entries[0].path in fs.listings && MatchInDir(fs.listings[entries[0].path], lowerName).None?;
    }
  }
}
