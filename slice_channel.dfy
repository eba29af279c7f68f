/** The slice-channel resolver: a slice under `.../tif/` has its second colour channel
    under `.../tifR/` with the same name, and the other way round. */
module SliceChannelResolver {
  import opened JavaStrings
  import opened ImageNames
  import opened FileSystemProbe

  /** `s` with its first occurrence of `from` replaced by `to`. */
  function ReplaceFirst(s: string, from: string, to: string): string
    requires Contains(s, from)
  {
    s[..IndexOf(s, from)] + to + s[IndexOf(s, from) + |from|..]
  }

  /** The path of the other channel's slice: the first `/tif/` swapped for `/tifR/` when the
      path has a `/tif/`, else the first `/tifR/` swapped for `/tif/`; None with neither. */
  function SliceChannelSibling(sliceImage: string): Option<string> {
    if Contains(sliceImage, TifDir) then Some(ReplaceFirst(sliceImage, TifDir, TifRDir))
    else if Contains(sliceImage, TifRDir) then Some(ReplaceFirst(sliceImage, TifRDir, TifDir))
    else None
  }

  /** findSecondColorChannelFromSliceImage: the sibling slice when it exists, else the input. */
  function FindSecondColorChannelFromSliceImage(fs: FileSystem, sliceImage: string): (r: string)
    ensures r == sliceImage || Exists(fs, r)
    ensures r != sliceImage <==>
      sliceImage != "" && SliceChannelSibling(sliceImage).Some? && Exists(fs, SliceChannelSibling(sliceImage).value)
    ensures r != sliceImage ==> r == SliceChannelSibling(sliceImage).value
  {
    if sliceImage == "" then sliceImage
    else if Contains(sliceImage, TifDir) then
      var attempt := sliceImage[..IndexOf(sliceImage, TifDir)] + TifRDir + sliceImage[IndexOf(sliceImage, TifDir) + |TifDir|..];
      if Exists(fs, attempt) then attempt else sliceImage
    else if Contains(sliceImage, TifRDir) then
      var attempt := sliceImage[..IndexOf(sliceImage, TifRDir)] + TifDir + sliceImage[IndexOf(sliceImage, TifRDir) + |TifDir| + 1..];
      if Exists(fs, attempt) then attempt else sliceImage
    else sliceImage
  }

  /** The two channels of a slice find each other: for a path with a single `/tif/` and no
      `/tifR/`, its sibling has no `/tif/`, and swapping the sibling back gives the path. */
  lemma SliceChannelsArePaired(fs: FileSystem, sliceImage: string)
    requires Contains(sliceImage, TifDir) && !Contains(sliceImage, TifRDir)
    requires forall j :: OccursAt(sliceImage, TifDir, j) ==> j == IndexOf(sliceImage, TifDir)
    ensures SliceChannelSibling(sliceImage).Some?
    ensures var sibling := SliceChannelSibling(sliceImage).value;
      && !Contains(sibling, TifDir)
      && SliceChannelSibling(sibling) == Some(sliceImage)
      && (Exists(fs, sibling) ==> FindSecondColorChannelFromSliceImage(fs, sliceImage) == sibling)
      && (Exists(fs, sliceImage) ==> FindSecondColorChannelFromSliceImage(fs, sibling) == sliceImage)
  {
    var s := sliceImage;
    var i := IndexOf(s, TifDir);
    var p := ReplaceFirst(s, TifDir, TifRDir);
    assert p == s[..i] + TifRDir + s[i + |TifDir|..];
    SwapLeavesNoTifDir(s, i);
    SwapPutsTifRFirst(s, i);
    SwapBackRestores(s, i, p);
  }

  /** Swapping `/tifR/` back for the `/tif/` it replaced restores the path. */
  lemma SwapBackRestores(s: string, i: int, p: string)
    requires OccursAt(s, TifDir, i) && p == s[..i] + TifRDir + s[i + 5..]
    ensures p[..i] + TifDir + p[i + |TifRDir|..] == s
  {
    assert p[..i] == s[..i];
    assert p[i + |TifRDir|..] == s[i + 5..];
    assert s == s[..i] + s[i..i + 5] + s[i + 5..];
  }

  /** Swapping the only `/tif/` of a path for `/tifR/` leaves no `/tif/` behind. */
  lemma SwapLeavesNoTifDir(s: string, i: int)
    requires OccursAt(s, TifDir, i)
    requires forall j :: OccursAt(s, TifDir, j) ==> j == i
    ensures !Contains(s[..i] + TifRDir + s[i + 5..], TifDir)
  {
    var p := s[..i] + TifRDir + s[i + 5..];
    SwapShape(s, i);
    forall j | 0 <= j && j + 5 <= |p|
      ensures !OccursAt(p, TifDir, j)
    {
      if j + 5 <= i {
        assert p[j..j + 5] == s[j..j + 5];
        assert !OccursAt(s, TifDir, j);
      } else if j >= i + 6 {
        assert p[j..j + 5] == s[j - 1..j + 4];
        assert !OccursAt(s, TifDir, j - 1);
      } else if j == i - 4 {
        assert p[j..j + 5] == s[i - 4..i + 1];
        assert !OccursAt(s, TifDir, i - 4);
      } else if j == i + 5 {
        assert p[j..j + 5] == s[i + 4..i + 9];
        assert !OccursAt(s, TifDir, i + 4);
      } else if j == i - 3 {
        assert p[j..j + 5][3] == p[i];
      } else if j == i - 2 {
        assert p[j..j + 5][2] == p[i];
      } else if j == i - 1 {
        assert p[j..j + 5][1] == p[i];
      } else if j == i {
        assert p[j..j + 5][4] == p[i + 4];
      } else {
        assert p[j..j + 5][0] == p[j];
      }
    }
  }

  /** In a path without `/tifR/`, the `/tifR/` put in place of a `/tif/` is the first one. */
  lemma SwapPutsTifRFirst(s: string, i: int)
    requires OccursAt(s, TifDir, i)
    requires !Contains(s, TifRDir)
    ensures IndexOf(s[..i] + TifRDir + s[i + 5..], TifRDir) == i
  {
    var p := s[..i] + TifRDir + s[i + 5..];
    SwapShape(s, i);
    forall j | 0 <= j < i
      ensures !OccursAt(p, TifRDir, j)
    {
      if j + 6 <= i {
        assert p[j..j + 6] == s[j..j + 6];
        assert !OccursAt(s, TifRDir, j);
      } else if j == i - 5 {
        assert p[j..j + 6] == s[i - 5..i + 1];
        assert !OccursAt(s, TifRDir, i - 5);
      } else if j == i - 4 {
        assert p[j..j + 6][4] == p[i];
      } else if j == i - 3 {
        assert p[j..j + 6][3] == p[i];
      } else if j == i - 2 {
        assert p[j..j + 6][2] == p[i];
      } else {
        assert p[j..j + 6][1] == p[i];
      }
    }
    assert OccursAt(p, TifRDir, i);
  }

  /** Where the characters of a swapped path come from. */
  lemma SwapShape(s: string, i: int)
    requires OccursAt(s, TifDir, i)
    ensures var p := s[..i] + TifRDir + s[i + 5..];
      && |p| == |s| + 1
      && (forall k :: 0 <= k < i ==> p[k] == s[k])
      && (forall k :: i + 6 <= k < |p| ==> p[k] == s[k - 1])
      && p[i] == '/' && p[i + 1] == 't' && p[i + 2] == 'i' && p[i + 3] == 'f' && p[i + 4] == 'R' && p[i + 5] == '/'
      && s[i] == '/' && s[i + 4] == '/'
  {
    assert s[i..i + 5] == TifDir;
    assert s[i..i + 5][0] == s[i] && s[i..i + 5][4] == s[i + 4];
  }
}
