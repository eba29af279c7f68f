/** The iSIM channel resolver: all stacks of an iSIM dataset sit in one directory, and
    their names differ only in the digit after `_w`. Given one stack, the resolver scans
    the directory for a name with the same text before that digit and from `_s` on, and a
    different digit. */
module ISimChannelResolver {
  import opened JavaStrings
  import opened ImageNames
  import opened FileSystemProbe

  /** The text that opens the channel identifier. */
  const ChannelMarker: string := "_w"

  /** Whether a listed path is another channel of the image: it starts with `before`,
      ends with `after`, and holds at `pos` a digit whose value is not `channel`.
      Reading `pos` in a path no longer than `pos` throws. */
  function IsOtherChannel(candidate: string, before: string, after: string, pos: nat, channel: int): (r: Outcome<bool>)
    ensures r == Value(true) <==>
      StartsWith(candidate, before) && EndsWith(candidate, after) && pos < |candidate|
      && IsDigit(candidate[pos]) && NumericValue(candidate[pos]) != channel
    ensures r.Throws? <==> StartsWith(candidate, before) && EndsWith(candidate, after) && |candidate| <= pos
    ensures r.Throws? ==> r.exception == StringIndexOutOfBounds
  {
    if StartsWith(candidate, before) && EndsWith(candidate, after) then
      var c :- CharAt(candidate, pos);
      Value(IsDigit(c) && NumericValue(c) != channel)
    else Value(false)
  }

  /** The first entry, in listing order, that is another channel: its path, or "" when
      there is none. A throwing test ends the scan. */
  function FirstOtherChannel(entries: seq<Entry>, before: string, after: string, pos: nat, channel: int): (r: Outcome<string>)
    ensures r.Value? && r.v != "" ==>
      exists i :: 0 <= i < |entries| && entries[i].path == r.v
        && IsOtherChannel(entries[i].path, before, after, pos, channel) == Value(true)
        && forall j :: 0 <= j < i ==> IsOtherChannel(entries[j].path, before, after, pos, channel) == Value(false)
    ensures r == Value("") <==>
      forall i :: 0 <= i < |entries| ==> IsOtherChannel(entries[i].path, before, after, pos, channel) == Value(false)
    ensures r.Throws? ==> r.exception == StringIndexOutOfBounds
    decreases |entries|
  {
    if entries == [] then Value("")
    else
      var found :- IsOtherChannel(entries[0].path, before, after, pos, channel);
      if found then Value(entries[0].path)
      else
        var rest := FirstOtherChannel(entries[1..], before, after, pos, channel);
        OtherChannelInRest(entries, before, after, pos, channel, rest);
        rest
  }

  /** The scan's answer for the listing past a rejected first entry is its answer for the
      whole listing. */
  lemma OtherChannelInRest(entries: seq<Entry>, before: string, after: string, pos: nat, channel: int, rest: Outcome<string>)
    requires entries != [] && IsOtherChannel(entries[0].path, before, after, pos, channel) == Value(false)
    requires rest.Value? && rest.v != "" ==>
      exists i :: 0 <= i < |entries[1..]| && entries[1..][i].path == rest.v
        && IsOtherChannel(entries[1..][i].path, before, after, pos, channel) == Value(true)
        && forall j :: 0 <= j < i ==> IsOtherChannel(entries[1..][j].path, before, after, pos, channel) == Value(false)
    requires rest == Value("") <==>
      forall i :: 0 <= i < |entries[1..]| ==> IsOtherChannel(entries[1..][i].path, before, after, pos, channel) == Value(false)
    ensures rest.Value? && rest.v != "" ==>
      exists i :: 0 <= i < |entries| && entries[i].path == rest.v
        && IsOtherChannel(entries[i].path, before, after, pos, channel) == Value(true)
        && forall j :: 0 <= j < i ==> IsOtherChannel(entries[j].path, before, after, pos, channel) == Value(false)
    ensures rest == Value("") <==>
      forall i :: 0 <= i < |entries| ==> IsOtherChannel(entries[i].path, before, after, pos, channel) == Value(false)
  {
    assert forall i :: 1 <= i < |entries| ==> entries[1..][i - 1] == entries[i];
    if rest.Value? && rest.v != "" {
      var i :| 0 <= i < |entries[1..]| && entries[1..][i].path == rest.v
        && IsOtherChannel(entries[1..][i].path, before, after, pos, channel) == Value(true)
        && forall j :: 0 <= j < i ==> IsOtherChannel(entries[1..][j].path, before, after, pos, channel) == Value(false);
      assert forall j :: 0 <= j < i + 1 ==> IsOtherChannel(entries[j].path, before, after, pos, channel) == Value(false) by {
        forall j | 0 <= j < i + 1
          ensures IsOtherChannel(entries[j].path, before, after, pos, channel) == Value(false)
        {
          if j > 0 {
            assert entries[j] == entries[1..][j - 1];
          }
        }
      }
    }
  }

  /** The index of the last `/`, or else of the last BACKSLASH, or -1. */
  function ContainingDirEnd(s: string): int {
    if LastIndexOf(s, ForwardSlash) != -1 then LastIndexOf(s, ForwardSlash) else LastIndexOf(s, Backslash)
  }

  /** What findSecondiSIMColorChannel returns. "" for an empty or missing image, a name
      without `_w`, a non-digit after `_w`, a path without a delimiter, or a directory that
      cannot be listed; otherwise the first other channel in the directory. Reading past
      `_w` at the end of the name, or cutting at a missing `_s`, throws. */
  function SecondISimChannel(fs: FileSystem, image: string): (r: Outcome<string>)
    ensures r.Throws? ==> r.exception == StringIndexOutOfBounds
  {
    if image == "" || !Exists(fs, image) then Value("")
    else
      var w := IndexOf(image, ChannelMarker);
      if w == -1 then Value("")
      else
        var before := image[..w + 2];
        var c :- CharAt(image, w + 2);
        if !IsDigit(c) then Value("")
        else
          var after :- SubstringFrom(image, IndexOf(image, EndOfChannelText));
          var dirEnd := ContainingDirEnd(image);
          if dirEnd == -1 then Value("")
          else
            var dir := image[..dirEnd];
            if dir !in fs.listings then Value("")
            else
              FirstOtherChannel(fs.listings[dir], before, after, w + 2, NumericValue(c))
  }

  /** The first guards of findSecondiSIMColorChannel pass and a character follows `_w`. */
  predicate ChannelDigitRead(fs: FileSystem, image: string) {
    image != "" && Exists(fs, image) && IndexOf(image, ChannelMarker) != -1 && IndexOf(image, ChannelMarker) + 2 < |image|
  }

  /** The `""` answers of findSecondiSIMColorChannel, one per guard, each given that the
      guards before it pass: an empty or missing image, no `_w`, a non-digit after `_w`, no
      delimiter, a directory that cannot be listed. */
  lemma SecondISimChannelEmpty(fs: FileSystem, image: string)
    ensures (image == "" || !Exists(fs, image) || IndexOf(image, ChannelMarker) == -1) ==>
      SecondISimChannel(fs, image) == Value("")
    ensures (ChannelDigitRead(fs, image) && !IsDigit(image[IndexOf(image, ChannelMarker) + 2])) ==>
      SecondISimChannel(fs, image) == Value("")
    ensures (ChannelDigitRead(fs, image) && IsDigit(image[IndexOf(image, ChannelMarker) + 2])
      && IndexOf(image, EndOfChannelText) != -1 && ContainingDirEnd(image) == -1) ==>
      SecondISimChannel(fs, image) == Value("")
    ensures (ChannelDigitRead(fs, image) && IsDigit(image[IndexOf(image, ChannelMarker) + 2])
      && IndexOf(image, EndOfChannelText) != -1 && ContainingDirEnd(image) != -1
      && image[..ContainingDirEnd(image)] !in fs.listings) ==>
      SecondISimChannel(fs, image) == Value("")
  {
    if image != "" && Exists(fs, image) && IndexOf(image, ChannelMarker) != -1
      && IndexOf(image, EndOfChannelText) != -1
    {
      assert OccursAt(image, EndOfChannelText, IndexOf(image, EndOfChannelText));
    }
  }

  /** A channel found is a listed entry of the image's directory that agrees with the image
      up to the digit after `_w` and from `_s` on, and has another digit there. */
  lemma SecondISimChannelSound(fs: FileSystem, image: string, r: Outcome<string>)
    requires r == SecondISimChannel(fs, image)
    ensures r.Value? && r.v != "" ==>
      var pos := IndexOf(image, ChannelMarker) + 2;
      && 2 <= pos < |image| && pos < |r.v| && IsDigit(image[pos]) && IsDigit(r.v[pos]) && r.v[pos] != image[pos]
      && StartsWith(r.v, image[..pos])
      && 0 <= IndexOf(image, EndOfChannelText)
      && EndsWith(r.v, image[IndexOf(image, EndOfChannelText)..])
      && ContainingDirEnd(image) != -1
      && image[..ContainingDirEnd(image)] in fs.listings
      && exists i :: 0 <= i < |fs.listings[image[..ContainingDirEnd(image)]]|
           && fs.listings[image[..ContainingDirEnd(image)]][i].path == r.v
  {
    if r.Value? && r.v != "" {
      var pos := IndexOf(image, ChannelMarker) + 2;
      var k := IndexOf(image, EndOfChannelText);
      assert IsDigit(image[pos]) && OccursAt(image, EndOfChannelText, k);
      var dirEnd := ContainingDirEnd(image);
      var entries := fs.listings[image[..dirEnd]];
      assert image[k..|image|] == image[k..];
      assert r == FirstOtherChannel(entries, image[..pos], image[k..], pos, NumericValue(image[pos]));
      var i :| 0 <= i < |entries| && entries[i].path == r.v
        && IsOtherChannel(entries[i].path, image[..pos], image[k..], pos, NumericValue(image[pos])) == Value(true);
      DigitValuesDiffer(image[pos]);
    }
  }

  /** The two ways the resolver crashes on an existing image: `_w` closes the name, so
      there is no channel digit to read; or the digit is there but `_s` is missing. */
  lemma SecondISimChannelThrows(fs: FileSystem, image: string)
    requires Exists(fs, image) && IndexOf(image, ChannelMarker) != -1
    ensures IndexOf(image, ChannelMarker) + 2 == |image| ==> SecondISimChannel(fs, image).Throws?
    ensures (IndexOf(image, ChannelMarker) + 2 < |image| && IsDigit(image[IndexOf(image, ChannelMarker) + 2])
      && IndexOf(image, EndOfChannelText) == -1) ==> SecondISimChannel(fs, image).Throws?
  {
  }

  /** Digits with different values are different characters, and the other way round. */
  lemma DigitValuesDiffer(c: char)
    requires IsDigit(c)
    ensures forall d :: IsDigit(d) ==> (NumericValue(d) != NumericValue(c) <==> d != c)
  {
  }

  /** findSecondiSIMColorChannel, with its scan over the directory listing. */
  method FindSecondISimColorChannel(fs: FileSystem, image: string) returns (r: Outcome<string>)
    ensures r == SecondISimChannel(fs, image)
  {
    if image == "" || !Exists(fs, image) {
      return Value("");
    }
    var w := IndexOf(image, ChannelMarker);
    if w == -1 {
      return Value("");
    }
    var before := image[..w + 2];
    var c :- CharAt(image, w + 2);
    if !IsDigit(c) {
      return Value("");
    }
    var channel := NumericValue(c);
    var pos := w + 2;
    var after :- SubstringFrom(image, IndexOf(image, EndOfChannelText));
    var dirEnd := LastIndexOf(image, ForwardSlash);
    if dirEnd == -1 {
      dirEnd := LastIndexOf(image, Backslash);
      if dirEnd == -1 {
        return Value("");
      }
    }
    assert dirEnd == ContainingDirEnd(image);
    var dir := image[..dirEnd];
    if dir !in fs.listings {
      return Value("");
    }
    var entries := fs.listings[dir];
    assert SecondISimChannel(fs, image) == FirstOtherChannel(entries, before, after, pos, channel);
    for i := 0 to |entries|
      invariant FirstOtherChannel(entries[i..], before, after, pos, channel)
        == FirstOtherChannel(entries, before, after, pos, channel)
    {
      assert entries[i..][1..] == entries[i + 1..];
      var path := entries[i].path;
      if StartsWith(path, before) && EndsWith(path, after) {
        var d :- CharAt(path, pos);
        if IsDigit(d) && NumericValue(d) != channel {
          return Value(path);
        }
      }
    }
    return Value("");
  }

  /** In a snapshot whose listed entries all exist, the channel found exists. */
  lemma SecondISimChannelExists(fs: FileSystem, image: string)
    requires Coherent(fs)
    requires SecondISimChannel(fs, image).Value? && SecondISimChannel(fs, image).v != ""
    ensures Exists(fs, SecondISimChannel(fs, image).v)
  {
    SecondISimChannelSound(fs, image, SecondISimChannel(fs, image));
    var dir := image[..ContainingDirEnd(image)];
    var i :| 0 <= i < |fs.listings[dir]| && fs.listings[dir][i].path == SecondISimChannel(fs, image).v;
    assert fs.listings[dir][i].path in fs.existing;
  }

  /** Replacing the channel digit of a name moves none of the text the resolver looks for. */
  lemma ChannelSwapKeepsLandmarks(s: string, pos: nat, d: char)
    requires pos < |s| && IsDigit(s[pos]) && IsDigit(d)
    ensures var t := ReplaceCharAt(s, pos, d);
      && IndexOf(t, ChannelMarker) == IndexOf(s, ChannelMarker)
      && IndexOf(t, EndOfChannelText) == IndexOf(s, EndOfChannelText)
      && LastIndexOf(t, ForwardSlash) == LastIndexOf(s, ForwardSlash)
      && LastIndexOf(t, Backslash) == LastIndexOf(s, Backslash)
  {
    ReplaceCharAtKeepsIndices(s, pos, d, ChannelMarker);
    ReplaceCharAtKeepsIndices(s, pos, d, EndOfChannelText);
    ReplaceCharAtKeepsIndices(s, pos, d, ForwardSlash);
    ReplaceCharAtKeepsIndices(s, pos, d, Backslash);
  }

  /** Replacing the channel digit leaves the text before it and the text after it alone. */
  lemma ChannelSwapKeepsSlices(s: string, pos: nat, d: char, t: string, k: nat, dirEnd: nat)
    requires pos < k <= |s| && dirEnd < pos && t == ReplaceCharAt(s, pos, d)
    ensures t[..pos] == s[..pos] && t[k..] == s[k..] && t[..dirEnd] == s[..dirEnd]
    ensures t != s <==> d != s[pos]
    ensures StartsWith(s, s[..pos]) && EndsWith(s, s[k..]) && StartsWith(t, s[..pos]) && EndsWith(t, s[k..])
  {
    assert |s| - |s[k..]| == k;
    if d != s[pos] {
      assert t[pos] != s[pos];
    }
  }

  /** Scanning a listing of `mine` and `theirs` for another channel of `mine` finds `theirs`. */
  lemma PairScan(entries: seq<Entry>, mine: string, theirs: string, before: string, after: string, pos: nat)
    requires pos < |mine| && |theirs| == |mine| && IsDigit(mine[pos]) && IsDigit(theirs[pos]) && theirs[pos] != mine[pos]
    requires StartsWith(mine, before) && EndsWith(mine, after)
    requires StartsWith(theirs, before) && EndsWith(theirs, after)
    requires forall e :: e in entries ==> e.path == mine || e.path == theirs
    requires exists e :: e in entries && e.path == theirs
    ensures FirstOtherChannel(entries, before, after, pos, NumericValue(mine[pos])) == Value(theirs)
    decreases |entries|
  {
    DigitValuesDiffer(mine[pos]);
    assert entries != [];
    if entries[0].path == mine {
      assert IsOtherChannel(mine, before, after, pos, NumericValue(mine[pos])) == Value(false);
      var e :| e in entries && e.path == theirs;
      assert e in entries[1..];
      PairScan(entries[1..], mine, theirs, before, after, pos);
    } else {
      assert IsOtherChannel(theirs, before, after, pos, NumericValue(mine[pos])) == Value(true);
    }
  }

  /** In a directory holding only an image and its twin, which differs from it only in the
      channel digit, the resolver finds the twin. The digit must come before `_s`, and the
      directory's delimiter before the digit. */
  lemma ISimScanFindsTwin(fs: FileSystem, image: string, twin: string, d: char, pos: nat, k: nat, dirEnd: nat)
    requires Exists(fs, image)
    requires pos == IndexOf(image, ChannelMarker) + 2 && 2 <= pos < |image|
    requires IsDigit(image[pos]) && IsDigit(d) && d != image[pos] && twin == ReplaceCharAt(image, pos, d)
    requires k == IndexOf(image, EndOfChannelText) && pos < k
    requires dirEnd == ContainingDirEnd(image) && dirEnd < pos
    requires image[..dirEnd] in fs.listings
    requires forall e :: e in fs.listings[image[..dirEnd]] ==> e.path == image || e.path == twin
    requires exists e :: e in fs.listings[image[..dirEnd]] && e.path == twin
    ensures SecondISimChannel(fs, image) == Value(twin)
  {
    SecondISimChannelScans(fs, image, pos, k, dirEnd);
    ChannelSwapKeepsSlices(image, pos, d, twin, k, dirEnd);
    PairScan(fs.listings[image[..dirEnd]], image, twin, image[..pos], image[k..], pos);
  }

  /** When every guard before the scan passes, the resolver is the scan of the directory. */
  lemma SecondISimChannelScans(fs: FileSystem, image: string, pos: nat, k: nat, dirEnd: nat)
    requires Exists(fs, image)
    requires pos == IndexOf(image, ChannelMarker) + 2 && 2 <= pos < |image| && IsDigit(image[pos])
    requires k == IndexOf(image, EndOfChannelText)
    requires dirEnd == ContainingDirEnd(image)
    requires image[..dirEnd] in fs.listings
    ensures SecondISimChannel(fs, image)
      == FirstOtherChannel(fs.listings[image[..dirEnd]], image[..pos], image[k..], pos, NumericValue(image[pos]))
  {
    assert OccursAt(image, EndOfChannelText, k);
    assert image[k..|image|] == image[k..];
    assert SubstringFrom(image, k) == Value(image[k..]);
    assert CharAt(image, pos) == Value(image[pos]);
  }

  /** The two channel stacks of one directory resolve to each other. */
  lemma ISimChannelsArePaired(fs: FileSystem, image: string, twin: string, d: char, pos: nat, k: nat, dirEnd: nat)
    requires Exists(fs, image) && Exists(fs, twin)
    requires pos == IndexOf(image, ChannelMarker) + 2 && 2 <= pos < |image|
    requires IsDigit(image[pos]) && IsDigit(d) && d != image[pos] && twin == ReplaceCharAt(image, pos, d)
    requires k == IndexOf(image, EndOfChannelText) && pos < k
    requires dirEnd == ContainingDirEnd(image) && dirEnd < pos
    requires image[..dirEnd] in fs.listings
    requires forall e :: e in fs.listings[image[..dirEnd]] ==> e.path == image || e.path == twin
    requires exists e :: e in fs.listings[image[..dirEnd]] && e.path == twin
    requires exists e :: e in fs.listings[image[..dirEnd]] && e.path == image
    ensures SecondISimChannel(fs, image) == Value(twin)
    ensures SecondISimChannel(fs, twin) == Value(image)
  {
    ISimScanFindsTwin(fs, image, twin, d, pos, k, dirEnd);
    ChannelSwapKeepsLandmarks(image, pos, d);
    ChannelSwapKeepsSlices(image, pos, d, twin, k, dirEnd);
    ReplaceCharAtRestores(image, pos, d);
    assert ContainingDirEnd(twin) == dirEnd;
    ISimScanFindsTwin(fs, twin, image, image[pos], pos, k, dirEnd);
  }
}
