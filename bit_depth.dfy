/** The 8-bit to 16-bit path rewrite: `.../image/tif/<prefix>-t<time>-p<plane>.tif` becomes
    `.../<prefix>_t<time>.TIF`, the stack that sits two directories above the slices.
    The rewrite is textual only; every stage that does not find what it looks for gives
    back the input path. */
module BitDepthPathMapper {
  import opened JavaStrings
  import opened ImageNames

  /** The file name after the last `/`, or else after the last BACKSLASH, when that
      delimiter is past index 0; None otherwise. */
  function FileNameAfterDelimiter(path: string): (r: Option<string>)
    ensures r.Some? <==> LastIndexOf(path, ForwardSlash) > 0 || LastIndexOf(path, Backslash) > 0
    ensures r.Some? ==>
      exists k :: 1 < k <= |path| && (path[k - 1] == '/' || path[k - 1] == '"') && r.value == path[k..]
    ensures LastIndexOf(path, ForwardSlash) > 0 ==> r.Some? && '/' !in r.value
    ensures LastIndexOf(path, ForwardSlash) <= 0 && r.Some? ==> '"' !in r.value
  {
    if LastIndexOf(path, ForwardSlash) > 0 then
      var k := LastIndexOf(path, ForwardSlash) + 1;
      AfterLastChar(path, '/', k - 1);
      Some(path[k..])
    else if LastIndexOf(path, Backslash) > 0 then
      var k := LastIndexOf(path, Backslash) + 1;
      AfterLastChar(path, '"', k - 1);
      Some(path[k..])
    else None
  }

  /** The text after the last `c` holds no `c`. */
  lemma AfterLastChar(s: string, c: char, i: int)
    requires i == LastIndexOf(s, [c]) && i != -1
    ensures 0 <= i < |s| && s[i] == c && c !in s[i + 1..]
  {
    CharOccurrences(s, c);
    var rest := s[i + 1..];
    forall j | 0 <= j < |rest|
      ensures rest[j] != c
    {
      assert rest[j] == s[i + 1 + j];
    }
  }

  /** What the stages before the time token find in a file name. */
  datatype NameParts = NameParts(fileName: string, planeIdx: int, ext: string, filePrefix: string, marker: int)

  /** The stages up to `-t`: the file name, its first `-p` past index 0, its last `.` past
      index 0 (the extension, upper-cased), the last dash before the character preceding `-p`
      (the shared prefix, `_` appended) and the last `-t` past index 0. None when a stage fails. */
  function SplitEightBitName(path: string): (r: Option<NameParts>)
    ensures r.Some? ==>
      && 0 < r.value.planeIdx < |r.value.fileName|
      && 0 < r.value.marker && r.value.marker + 2 <= |r.value.fileName|
  {
    match FileNameAfterDelimiter(path)
    case None => None
    case Some(fileName) =>
      var planeIdx := IndexOf(fileName, PlaneMarker);
      if planeIdx <= 0 then None
      else
        var fileNameNoPlane := fileName[..planeIdx - 1];
        var extIdx := LastIndexOf(fileName, Period);
        if extIdx <= 0 then None
        else
          var lastDashIdx := LastIndexOf(fileNameNoPlane, [Dash]);
          if lastDashIdx <= 0 then None
          else
            var marker := LastIndexOf(fileName, TimeMarker8bit);
            if marker <= 0 then None
            else Some(NameParts(fileName, planeIdx, ToUpper(fileName[extIdx..]),
                                fileNameNoPlane[..lastDashIdx] + [Underscore], marker))
  }

  /** The index of the first character at or after `i` that is not '0'. Reading past the
      end throws, as charAt does. */
  function SkipZeros(f: string, i: nat): (r: Outcome<int>)
    ensures r.Value? ==> i <= r.v < |f| && f[r.v] != '0' && forall k :: i <= k < r.v ==> f[k] == '0'
    ensures r.Throws? ==> r.exception == StringIndexOutOfBounds && forall k :: i <= k < |f| ==> f[k] == '0'
    decreases |f| - i
  {
    if i >= |f| then Throws(StringIndexOutOfBounds)
    else if f[i] == '0' then SkipZeros(f, i + 1)
    else Value(i)
  }

  /** Where the time token starts, as written: past `-t` and its zero padding when the
      character after `-t` is '0', but ON the `-t` when the time has no leading zero. */
  function TimeDigitsStart(fileName: string, marker: nat): (r: Outcome<int>)
    ensures r.Value? ==> marker <= r.v
    ensures r.Value? ==> marker + 2 < |fileName|
    ensures r.Value? && fileName[marker + 2] != '0' ==> r.v == marker
    ensures r.Value? && fileName[marker + 2] == '0' ==>
      marker + 2 < r.v < |fileName| && fileName[r.v] != '0' && forall k :: marker + 2 <= k < r.v ==> fileName[k] == '0'
    ensures r.Throws? <==> marker + 2 >= |fileName| || (fileName[marker + 2] == '0' && SkipZeros(fileName, marker + 2).Throws?)
  {
    var c :- CharAt(fileName, marker + 2);
    if c == '0' then SkipZeros(fileName, marker + 2) else Value(marker)
  }

  /** The last stages from a given time start: the time text up to `-p`, then the path
      before `image/tif` (past index 0) with the rebuilt file name, else the input. */
  function RebuildFromTimeStart(path: string, parts: NameParts, timeStart: int): (r: Outcome<string>)
    ensures r.Throws? ==> r.exception == StringIndexOutOfBounds
    ensures r.Value? && r.v != path ==>
      && 0 < IndexOf(path, SliceDirs)
      && StartsWith(r.v, path[..IndexOf(path, SliceDirs)] + parts.filePrefix + TimeText)
      && EndsWith(r.v, parts.ext)
  {
    var time :- Substring(parts.fileName, timeStart, parts.planeIdx);
    var removeDirsIdx := IndexOf(path, SliceDirs);
    if removeDirsIdx <= 0 then Value(path)
    else Value(path[..removeDirsIdx] + parts.filePrefix + TimeText + time + parts.ext)
  }

  /** What reconfigureImagePathFrom8bitTo16bit returns: the path before `image/tif`, then
      the shared prefix with `_`, then `t` and the text from the time start to `-p`, then
      the upper-cased extension. The input when a stage fails. */
  function Reconfigured8bitTo16bit(path: string): (r: Outcome<string>)
    ensures r.Throws? ==> r.exception == StringIndexOutOfBounds
    ensures r.Throws? <==>
      && SplitEightBitName(path).Some?
      && var parts := SplitEightBitName(path).value;
        var start := TimeDigitsStart(parts.fileName, parts.marker);
        start.Throws? || start.v > parts.planeIdx
    ensures r.Value? && r.v != path ==>
      && SplitEightBitName(path).Some?
      && 0 < IndexOf(path, SliceDirs)
      && StartsWith(r.v, path[..IndexOf(path, SliceDirs)] + SplitEightBitName(path).value.filePrefix + TimeText)
      && EndsWith(r.v, SplitEightBitName(path).value.ext)
  {
    match SplitEightBitName(path)
    case None => Value(path)
    case Some(parts) =>
      var timeStart :- TimeDigitsStart(parts.fileName, parts.marker);
      RebuildFromTimeStart(path, parts, timeStart)
  }

  /** The time start the rewrite evidently means: past `-t` and its zero padding, whether or
      not the time has a leading zero. */
  function TimeDigitsStartIntended(fileName: string, marker: nat): Outcome<int> {
    var c :- CharAt(fileName, marker + 2);
    if c == '0' then SkipZeros(fileName, marker + 2) else Value(marker + 2)
  }

  /** The rewrite with the intended time start; every other stage as written. */
  function Reconfigured8bitTo16bitIntended(path: string): Outcome<string> {
    match SplitEightBitName(path)
    case None => Value(path)
    case Some(parts) =>
      var timeStart :- TimeDigitsStartIntended(parts.fileName, parts.marker);
      RebuildFromTimeStart(path, parts, timeStart)
  }

  /** reconfigureImagePathFrom8bitTo16bit: the staged parse. */
  method ReconfigureImagePathFrom8bitTo16bit(path: string) returns (r: Outcome<string>)
    ensures r == Reconfigured8bitTo16bit(path)
  {
    var parts := SplitEightBitName(path);
    if parts.None? {
      return Value(path);
    }
    var fileName := parts.value.fileName;
    var tIdx :- FindTimeDigitsStart(fileName, parts.value.marker);
    assert Reconfigured8bitTo16bit(path) == RebuildFromTimeStart(path, parts.value, tIdx);
    var time :- Substring(fileName, tIdx, parts.value.planeIdx);
    var removeDirsIdx := IndexOf(path, SliceDirs);
    if removeDirsIdx > 0 {
      return Value(path[..removeDirsIdx] + parts.value.filePrefix + TimeText + time + parts.value.ext);
    }
    return Value(path);
  }

  /** The time-start stage of reconfigureImagePathFrom8bitTo16bit, with its loop over the
      zero padding. */
  method FindTimeDigitsStart(fileName: string, marker: nat) returns (r: Outcome<int>)
    ensures r == TimeDigitsStart(fileName, marker)
  {
    var tIdx := marker;
    var c :- CharAt(fileName, tIdx + 2);
    if c == '0' {
      tIdx := tIdx + 2;
      while c == '0'
        invariant marker + 2 <= tIdx < |fileName| && c == fileName[tIdx]
        invariant SkipZeros(fileName, tIdx) == SkipZeros(fileName, marker + 2)
        decreases |fileName| - tIdx
      {
        tIdx := tIdx + 1;
        c :- CharAt(fileName, tIdx);
      }
    }
    return Value(tIdx);
  }

  // ---------------------------------------------------------------------------
  // The rewrite applied to the names the 8-bit builder produces

  /** The 8-bit file name `<pre>-t<time>-p<plane>.tif`, with its tokens as given. */
  function EightBitFileName(pre: string, time: string, plane: string): string {
    pre + TimeMarker8bit + time + PlaneMarker + plane + TifLowerExt
  }

  /** Where each character of an 8-bit file name comes from; `q` is the index of its `-p`. */
  lemma EightBitFileNameShape(pre: string, time: string, plane: string, f: string, q: int)
    requires f == EightBitFileName(pre, time, plane) && q == |pre| + 2 + |time|
    ensures |f| == q + |plane| + 6
    ensures forall k :: 0 <= k < |pre| ==> f[k] == pre[k]
    ensures f[|pre|] == '-' && f[|pre| + 1] == 't'
    ensures forall k :: |pre| + 2 <= k < q ==> f[k] == time[k - |pre| - 2]
    ensures f[q] == '-' && f[q + 1] == 'p'
    ensures forall k :: q + 2 <= k < q + 2 + |plane| ==> f[k] == plane[k - q - 2]
    ensures f[|f| - 4] == '.' && f[|f| - 3] == 't' && f[|f| - 2] == 'i' && f[|f| - 1] == 'f'
  {
    assert f == pre + ("-t" + (time + ("-p" + (plane + ".tif"))));
  }

  /** An 8-bit file name ends in `.tif`, and begins with the prefix. */
  lemma EightBitFileNameEnds(pre: string, time: string, plane: string, f: string, q: int)
    requires f == EightBitFileName(pre, time, plane) && q == |pre| + 2 + |time|
    ensures f[|f| - 4..] == TifLowerExt
    ensures f[..q - 1][..|pre|] == pre
  {
    assert f == (pre + TimeMarker8bit + time + PlaneMarker + plane) + TifLowerExt;
    assert f == pre + (TimeMarker8bit + time + PlaneMarker + plane + TifLowerExt);
  }

  /** An 8-bit file name of digit tokens has no `/`. */
  lemma EightBitFileNameNoSlash(pre: string, time: string, plane: string, f: string)
    requires '/' !in pre && AllDigits(time) && AllDigits(plane)
    requires f == EightBitFileName(pre, time, plane)
    ensures '/' !in f
  {
    DigitsLack(time, '/');
    DigitsLack(plane, '/');
  }

  /** The stages of the rewrite find the tokens the 8-bit builder put in place. */
  lemma EightBitFileNameIndices(pre: string, time: string, plane: string, f: string, q: int)
    requires Dash !in pre && |pre| > 0
    requires |time| > 0 && AllDigits(time) && AllDigits(plane)
    requires f == EightBitFileName(pre, time, plane) && q == |pre| + 2 + |time|
    ensures IndexOf(f, PlaneMarker) == q
    ensures LastIndexOf(f, Period) == |f| - 4
    ensures LastIndexOf(f[..q - 1], [Dash]) == |pre|
    ensures LastIndexOf(f, TimeMarker8bit) == |pre|
  {
    EightBitFileNameShape(pre, time, plane, f, q);
    forall k | 0 <= k < |pre|
      ensures f[k] != '-'
    {
      assert f[k] == pre[k];
    }
    forall k | |pre| + 2 <= k < q
      ensures IsDigit(f[k])
    {
      assert f[k] == time[k - |pre| - 2];
    }
    forall k | q + 2 <= k < q + 2 + |plane|
      ensures IsDigit(f[k])
    {
      assert f[k] == plane[k - q - 2];
    }
    IndexOfPairIs(f, '-', 'p', q);
    LastIndexOfCharIs(f, '.', |f| - 4);
    var noPlane := f[..q - 1];
    LastIndexOfCharIs(noPlane, '-', |pre|);
    LastIndexOfPairIs(f, '-', 't', |pre|);
  }

  /** The text the upper-casing makes of the 8-bit extension. */
  lemma UpperTifExtension()
    ensures ToUpper(TifLowerExt) == TifUpperExt
  {
    var u := ToUpper(TifLowerExt);
    assert u[0] == '.' && u[1] == 'T' && u[2] == 'I' && u[3] == 'F';
  }

  /** What the stages before the time token find in an 8-bit file name: `-p` at `q`, the
      extension `.tif` (upper-cased `.TIF`), and the `-t` after `pre` as the last dash before
      the plane and the last `-t`. */
  lemma EightBitFileNameStages(pre: string, time: string, plane: string, f: string, q: int)
    requires Dash !in pre && |pre| > 0
    requires |time| > 0 && AllDigits(time) && AllDigits(plane)
    requires f == EightBitFileName(pre, time, plane) && q == |pre| + 2 + |time|
    ensures 0 < |pre| < q <= |f| && |f| > 4
    ensures IndexOf(f, PlaneMarker) == q && LastIndexOf(f, Period) == |f| - 4
    ensures LastIndexOf(f[..q - 1], [Dash]) == |pre| && LastIndexOf(f, TimeMarker8bit) == |pre|
    ensures ToUpper(f[|f| - 4..]) == TifUpperExt && f[..q - 1][..|pre|] == pre
  {
    EightBitFileNameIndices(pre, time, plane, f, q);
    EightBitFileNameEnds(pre, time, plane, f, q);
    UpperTifExtension();
  }

  /** With zero padding before the digits of the time, the time start skips it, and the
      time text is the digits alone. */
  lemma PaddedTimeStart(pre: string, zeros: nat, digits: string, plane: string, time: string, f: string, q: int)
    requires zeros > 0 && |digits| > 0 && digits[0] != '0'
    requires time == ZeroPadding(zeros) + digits
    requires f == EightBitFileName(pre, time, plane) && q == |pre| + 2 + |time|
    ensures TimeDigitsStart(f, |pre|) == Value(|pre| + 2 + zeros)
    ensures TimeDigitsStartIntended(f, |pre|) == Value(|pre| + 2 + zeros)
    ensures f[|pre| + 2 + zeros..q] == digits
  {
    EightBitFileNameShape(pre, time, plane, f, q);
    assert f == pre + TimeMarker8bit + ZeroPadding(zeros) + digits + (PlaneMarker + plane + TifLowerExt);
    assert f[|pre| + 2 + zeros] == digits[0];
    assert f[|pre| + 2] == '0';
    forall k | |pre| + 2 <= k < |pre| + 2 + zeros
      ensures f[k] == '0'
    {
      assert f[k] == time[k - |pre| - 2];
    }
  }

  /** Without zero padding, the time start stays on `-t`, so the time text keeps the marker. */
  lemma UnpaddedTimeStart(pre: string, time: string, plane: string, f: string, q: int)
    requires |time| > 0 && time[0] != '0'
    requires f == EightBitFileName(pre, time, plane) && q == |pre| + 2 + |time|
    ensures TimeDigitsStart(f, |pre|) == Value(|pre|)
    ensures f[|pre|..q] == TimeMarker8bit + time
    ensures TimeDigitsStartIntended(f, |pre|) == Value(|pre| + 2)
    ensures f[|pre| + 2..q] == time
  {
    EightBitFileNameShape(pre, time, plane, f, q);
    assert f == pre + (TimeMarker8bit + time) + (PlaneMarker + plane + TifLowerExt);
  }

  /** The time token of 1 <= n is zero padding followed by the decimal text of n. */
  lemma TimeTokenSplit(n: Int32)
    requires n >= 1
    ensures FormatTimeInteger(n) == ZeroPadding(if n < 10 then 2 else if n < 100 then 1 else 0) + IntToString(n)
  {
    if n < 10 {
      assert ZeroPadding(2) == ZeroPad + ZeroPad;
    } else if n < 100 {
      assert ZeroPadding(1) == ZeroPad;
    } else {
      assert ZeroPadding(0) == [];
    }
  }

  /** `n` zero characters. */
  function ZeroPadding(n: nat): (r: string)
    ensures |r| == n && forall k :: 0 <= k < n ==> r[k] == '0'
  {
    seq(n, _ => '0')
  }

  /** Zero padding before digits leaves a non-empty digit string. */
  lemma PaddedTokenIsDigits(zeros: nat, digits: string, token: string)
    requires |digits| > 0 && AllDigits(digits) && token == ZeroPadding(zeros) + digits
    ensures |token| > 0 && AllDigits(token)
  {
    forall k | 0 <= k < |token|
      ensures IsDigit(token[k])
    {
      if k >= zeros {
        assert token[k] == digits[k - zeros];
      }
    }
  }

  /** Below the slice directories, the file name is everything after their `/`. */
  lemma SliceDirFileName(root: string, f: string)
    requires '/' !in f
    ensures FileNameAfterDelimiter(root + SliceDirs + ForwardSlash + f) == Some(f)
  {
    var path := root + SliceDirs + ForwardSlash + f;
    var slash := |root| + |SliceDirs|;
    forall k | slash < k < |path|
      ensures path[k] != '/'
    {
      assert path[k] == f[k - slash - 1];
    }
    LastIndexOfCharIs(path, '/', slash);
    assert path[slash + 1..] == f;
  }

  /** When the root holds no `image/tif` of its own, the slice directories start right after it. */
  lemma SliceDirsAfterRoot(root: string, f: string)
    requires IndexOf(root + SliceDirs, SliceDirs) == |root|
    ensures IndexOf(root + SliceDirs + ForwardSlash + f, SliceDirs) == |root|
    ensures (root + SliceDirs + ForwardSlash + f)[..|root|] == root
  {
    IndexOfExtend(root + SliceDirs, ForwardSlash + f, SliceDirs);
    assert root + SliceDirs + ForwardSlash + f == (root + SliceDirs) + (ForwardSlash + f);
  }

  /** The stages before the time token, given what each of them finds. */
  lemma SplitFromStages(path: string, f: string, planeIdx: int, extIdx: int, lastDashIdx: int, marker: int)
    requires FileNameAfterDelimiter(path) == Some(f)
    requires 0 < planeIdx && IndexOf(f, PlaneMarker) == planeIdx
    requires 0 < extIdx && LastIndexOf(f, Period) == extIdx
    requires 0 < lastDashIdx && LastIndexOf(f[..planeIdx - 1], [Dash]) == lastDashIdx
    requires 0 < marker && LastIndexOf(f, TimeMarker8bit) == marker
    ensures SplitEightBitName(path) ==
      Some(NameParts(f, planeIdx, ToUpper(f[extIdx..]), f[..planeIdx - 1][..lastDashIdx] + [Underscore], marker))
  {
  }

  /** The whole rewrite, given what its stages find. */
  lemma ReconfiguredFromStages(path: string, parts: NameParts, root: string, start: int, timeText: string)
    requires SplitEightBitName(path) == Some(parts)
    requires TimeDigitsStart(parts.fileName, parts.marker) == Value(start)
    requires 0 <= start <= parts.planeIdx <= |parts.fileName|
    requires parts.fileName[start..parts.planeIdx] == timeText
    requires |root| > 0 && IndexOf(path, SliceDirs) == |root| && path[..|root|] == root
    ensures Reconfigured8bitTo16bit(path) == Value(root + parts.filePrefix + TimeText + timeText + parts.ext)
  {
  }

  /** The rewrite of a path below `<root>image/tif/` whose file name has `-p` at `q`, the
      extension `.tif`, the `-t` after `pre` as its last dash before the plane and its last `-t`,
      and whose time text starts at `start`: `<root><pre>_t<time text>.TIF`. */
  lemma ReconfiguredFromFileName(path: string, root: string, f: string, pre: string, q: int, start: int, timeText: string)
    requires |root| > 0 && IndexOf(path, SliceDirs) == |root| && path[..|root|] == root
    requires FileNameAfterDelimiter(path) == Some(f)
    requires 0 < |pre| < q <= |f| && |f| > 4
    requires IndexOf(f, PlaneMarker) == q && LastIndexOf(f, Period) == |f| - 4
    requires LastIndexOf(f[..q - 1], [Dash]) == |pre| && LastIndexOf(f, TimeMarker8bit) == |pre|
    requires ToUpper(f[|f| - 4..]) == TifUpperExt && f[..q - 1][..|pre|] == pre
    requires TimeDigitsStart(f, |pre|) == Value(start) && 0 <= start <= q && f[start..q] == timeText
    ensures Reconfigured8bitTo16bit(path) == Value(root + (pre + [Underscore]) + TimeText + timeText + TifUpperExt)
  {
    SplitFromStages(path, f, q, |f| - 4, |pre|, |pre|);
    ReconfiguredFromStages(path, NameParts(f, q, TifUpperExt, pre + [Underscore], |pre|), root, start, timeText);
  }

  /** The 8-bit builder's file name below `image/tif/`, and what the stages of the rewrite
      find in it: the time text kept is the time itself after zero padding (time < 100),
      and the time with its `-t` marker before it from 100 on. */
  lemma EightBitBuiltName(root: string, pre: string, time: Int32, plane: Int32)
    returns (f: string, q: int, start: int, timeText: string, digitsStart: int)
    requires |pre| > 0 && Dash !in pre && '/' !in pre
    requires time >= 1
    ensures AppendTimeAndPlaneTo8BitTifPrefix(root + SliceDirs + ForwardSlash + pre + TimeMarker8bit, time, plane)
      == root + SliceDirs + ForwardSlash + f
    ensures '/' !in f
    ensures 0 < |pre| < q <= |f| && |f| > 4
    ensures IndexOf(f, PlaneMarker) == q && LastIndexOf(f, Period) == |f| - 4
    ensures LastIndexOf(f[..q - 1], [Dash]) == |pre| && LastIndexOf(f, TimeMarker8bit) == |pre|
    ensures ToUpper(f[|f| - 4..]) == TifUpperExt && f[..q - 1][..|pre|] == pre
    ensures TimeDigitsStart(f, |pre|) == Value(start) && 0 <= start <= q && f[start..q] == timeText
    ensures time < 100 ==> timeText == IntToString(time)
    ensures time >= 100 ==> timeText == TimeMarker8bit + IntToString(time)
    ensures TimeDigitsStartIntended(f, |pre|) == Value(digitsStart) && 0 <= digitsStart <= q
    ensures f[digitsStart..q] == IntToString(time)
  {
    var zeros: nat := if time < 10 then 2 else if time < 100 then 1 else 0;
    var digits := IntToString(time);
    var planeText := FormatPlaneInteger(plane);
    var token := ZeroPadding(zeros) + digits;
    BuilderPath(root, pre, time, plane);
    FormatTimeIntegerMeaning(time);
    FormatPlaneIntegerMeaning(plane);
    PaddedTokenIsDigits(zeros, digits, token);
    f := EightBitFileName(pre, token, planeText);
    q := |pre| + 2 + |token|;
    EightBitFileNameNoSlash(pre, token, planeText, f);
    EightBitFileNameStages(pre, token, planeText, f, q);
    if zeros > 0 {
      start, timeText, digitsStart := |pre| + 2 + zeros, digits, |pre| + 2 + zeros;
      PaddedTimeStart(pre, zeros, digits, planeText, token, f, q);
    } else {
      start, timeText, digitsStart := |pre|, TimeMarker8bit + digits, |pre| + 2;
      assert token == digits;
      UnpaddedTimeStart(pre, token, planeText, f, q);
    }
  }

  /** The 8-bit builder's name, with the time token split into padding and digits. */
  lemma BuilderPath(root: string, pre: string, time: Int32, plane: Int32)
    requires time >= 1
    ensures AppendTimeAndPlaneTo8BitTifPrefix(root + SliceDirs + ForwardSlash + pre + TimeMarker8bit, time, plane)
      == root + SliceDirs + ForwardSlash + EightBitFileName(pre, ZeroPadding(if time < 10 then 2 else if time < 100 then 1 else 0) + IntToString(time), FormatPlaneInteger(plane))
  {
    TimeTokenSplit(time);
    RegroupAfterDir(root + SliceDirs + ForwardSlash, pre, TimeMarker8bit, FormatTimeInteger(time),
      PlaneMarker, FormatPlaneInteger(plane), TifLowerExt);
  }

  /** Moving a directory in front of a file name built from five more pieces. */
  lemma RegroupAfterDir(dir: string, a: string, b: string, c: string, d: string, e: string, f: string)
    ensures dir + a + b + c + d + e + f == dir + (a + b + c + d + e + f)
  {
  }

  /** The rewrite applied to an 8-bit slice name made by the builder, below `image/tif/`
      under `root`: the path `<root><pre>_t<time>.TIF` when the time had zero padding
      (time < 100), and `<root><pre>_t-t<time>.TIF`, with the marker kept, from 100 on. */
  lemma ReconfigureEightBitName(root: string, pre: string, time: Int32, plane: Int32)
    requires |root| > 0 && IndexOf(root + SliceDirs, SliceDirs) == |root|
    requires |pre| > 0 && Dash !in pre && '/' !in pre
    requires time >= 1
    ensures time < 100 ==>
      Reconfigured8bitTo16bit(AppendTimeAndPlaneTo8BitTifPrefix(root + SliceDirs + ForwardSlash + pre + TimeMarker8bit, time, plane))
      == Value(root + (pre + [Underscore]) + TimeText + IntToString(time) + TifUpperExt)
    ensures time >= 100 ==>
      Reconfigured8bitTo16bit(AppendTimeAndPlaneTo8BitTifPrefix(root + SliceDirs + ForwardSlash + pre + TimeMarker8bit, time, plane))
      == Value(root + (pre + [Underscore]) + TimeText + (TimeMarker8bit + IntToString(time)) + TifUpperExt)
  {
    var f, q, start, timeText, _ := EightBitBuiltName(root, pre, time, plane);
    SliceDirFileName(root, f);
    SliceDirsAfterRoot(root, f);
    ReconfiguredFromFileName(root + SliceDirs + ForwardSlash + f, root, f, pre, q, start, timeText);
  }

  /** Up to time 99 the rewrite finds the 16-bit stack the 16-bit builder names for the
      prefix `<root><pre>_t`. */
  lemma ReconfigureFindsSixteenBitStack(root: string, pre: string, time: Int32, plane: Int32)
    requires |root| > 0 && IndexOf(root + SliceDirs, SliceDirs) == |root|
    requires |pre| > 0 && Dash !in pre && '/' !in pre
    requires 1 <= time < 100
    ensures Reconfigured8bitTo16bit(AppendTimeAndPlaneTo8BitTifPrefix(root + SliceDirs + ForwardSlash + pre + TimeMarker8bit, time, plane))
      == AppendTimeToSingle16BitTifPrefix(root + pre + TimeMarker16bit, time)
  {
    ReconfigureEightBitName(root, pre, time, plane);
    SixteenBitStackName(root, pre, time);
  }

  /** From time 100 on, the time has no zero padding, the time start stays on `-t`, and the
      rewrite keeps the marker: `<root><pre>_t-t<time>.TIF`, which is not the 16-bit stack. */
  lemma ReconfigureKeepsTimeMarkerFrom100(root: string, pre: string, time: Int32, plane: Int32)
    requires |root| > 0 && IndexOf(root + SliceDirs, SliceDirs) == |root|
    requires |pre| > 0 && Dash !in pre && '/' !in pre
    requires time >= 100
    ensures Reconfigured8bitTo16bit(AppendTimeAndPlaneTo8BitTifPrefix(root + SliceDirs + ForwardSlash + pre + TimeMarker8bit, time, plane))
      == Value(root + pre + TimeMarker16bit + TimeMarker8bit + IntToString(time) + TifUpperExt)
    ensures Reconfigured8bitTo16bit(AppendTimeAndPlaneTo8BitTifPrefix(root + SliceDirs + ForwardSlash + pre + TimeMarker8bit, time, plane))
      != AppendTimeToSingle16BitTifPrefix(root + pre + TimeMarker16bit, time)
  {
    ReconfigureEightBitName(root, pre, time, plane);
    MarkedStackName(root, pre, time);
  }

  /** The rewrite's output with the prefix and `t` put together is the 16-bit builder's name. */
  lemma SixteenBitStackName(root: string, pre: string, time: Int32)
    ensures AppendTimeToSingle16BitTifPrefix(root + pre + TimeMarker16bit, time)
      == Value(root + (pre + [Underscore]) + TimeText + IntToString(time) + TifUpperExt)
  {
    assert root + (pre + [Underscore]) + TimeText == root + pre + TimeMarker16bit;
  }

  /** With the `-t` kept, the rewrite's output is not the 16-bit builder's name. */
  lemma MarkedStackName(root: string, pre: string, time: Int32)
    requires time >= 0
    ensures root + (pre + [Underscore]) + TimeText + (TimeMarker8bit + IntToString(time)) + TifUpperExt
      == root + pre + TimeMarker16bit + TimeMarker8bit + IntToString(time) + TifUpperExt
    ensures AppendTimeToSingle16BitTifPrefix(root + pre + TimeMarker16bit, time)
      != Value(root + pre + TimeMarker16bit + TimeMarker8bit + IntToString(time) + TifUpperExt)
  {
    var prefix := root + pre + TimeMarker16bit;
    assert root + (pre + [Underscore]) + TimeText == prefix;
    var digits := IntToString(time);
    assert digits[0] != '-' by {
      assert digits == NatToString(time);
    }
    var bad := prefix + TimeMarker8bit + digits + TifUpperExt;
    var good := prefix + digits + TifUpperExt;
    assert bad[|prefix|] == '-' && good[|prefix|] == digits[0];
  }

  /** The intended rewrite, with the time start past `-t`, on an 8-bit slice name made by the
      builder: `<root><pre>_t<time>.TIF` for every time from 1 on. */
  lemma ReconfigureIntendedEightBitName(root: string, pre: string, time: Int32, plane: Int32)
    requires |root| > 0 && IndexOf(root + SliceDirs, SliceDirs) == |root|
    requires |pre| > 0 && Dash !in pre && '/' !in pre
    requires time >= 1
    ensures Reconfigured8bitTo16bitIntended(AppendTimeAndPlaneTo8BitTifPrefix(root + SliceDirs + ForwardSlash + pre + TimeMarker8bit, time, plane))
      == Value(root + (pre + [Underscore]) + TimeText + IntToString(time) + TifUpperExt)
  {
    var f, q, _, _, digitsStart := EightBitBuiltName(root, pre, time, plane);
    var path := root + SliceDirs + ForwardSlash + f;
    SliceDirFileName(root, f);
    SliceDirsAfterRoot(root, f);
    SplitFromStages(path, f, q, |f| - 4, |pre|, |pre|);
    ReconfiguredIntendedFromStages(path, NameParts(f, q, TifUpperExt, pre + [Underscore], |pre|), root, digitsStart, IntToString(time));
  }

  /** The intended rewrite, given what its stages find. */
  lemma ReconfiguredIntendedFromStages(path: string, parts: NameParts, root: string, start: int, timeText: string)
    requires SplitEightBitName(path) == Some(parts)
    requires TimeDigitsStartIntended(parts.fileName, parts.marker) == Value(start)
    requires 0 <= start <= parts.planeIdx <= |parts.fileName|
    requires parts.fileName[start..parts.planeIdx] == timeText
    requires |root| > 0 && IndexOf(path, SliceDirs) == |root| && path[..|root|] == root
    ensures Reconfigured8bitTo16bitIntended(path) == Value(root + parts.filePrefix + TimeText + timeText + parts.ext)
  {
  }

  /** The intended rewrite finds, for every time from 1 on, the 16-bit stack the 16-bit
      builder names for the prefix `<root><pre>_t`. */
  lemma ReconfigureIntendedFindsSixteenBitStack(root: string, pre: string, time: Int32, plane: Int32)
    requires |root| > 0 && IndexOf(root + SliceDirs, SliceDirs) == |root|
    requires |pre| > 0 && Dash !in pre && '/' !in pre
    requires time >= 1
    ensures Reconfigured8bitTo16bitIntended(AppendTimeAndPlaneTo8BitTifPrefix(root + SliceDirs + ForwardSlash + pre + TimeMarker8bit, time, plane))
      == AppendTimeToSingle16BitTifPrefix(root + pre + TimeMarker16bit, time)
  {
    ReconfigureIntendedEightBitName(root, pre, time, plane);
    SixteenBitStackName(root, pre, time);
  }

  /** The intended rewrite differs from the rewrite as written only on names whose time,
      after `-t`, does not start with '0'. */
  lemma IntendedDiffersOnlyWithoutPadding(path: string)
    ensures Reconfigured8bitTo16bit(path) != Reconfigured8bitTo16bitIntended(path) ==>
      && SplitEightBitName(path).Some?
      && var parts := SplitEightBitName(path).value;
        CharAt(parts.fileName, parts.marker + 2).Value? && CharAt(parts.fileName, parts.marker + 2).v != '0'
  {
    match SplitEightBitName(path)
    case None =>
    case Some(parts) =>
      var c := CharAt(parts.fileName, parts.marker + 2);
      if c.Throws? || c.v == '0' {
        assert TimeDigitsStart(parts.fileName, parts.marker) == TimeDigitsStartIntended(parts.fileName, parts.marker);
      }
  }

  /** A root without an `i` holds no `image/tif` of its own. */
  lemma SliceDirsAfterPlainRoot(root: string)
    requires 'i' !in root
    ensures IndexOf(root + SliceDirs, SliceDirs) == |root|
  {
    var s := root + SliceDirs;
    assert OccursAt(s, SliceDirs, |root|);
    forall j | 0 <= j < |root|
      ensures !OccursAt(s, SliceDirs, j)
    {
      assert s[j] == root[j];
      if j + |SliceDirs| <= |s| {
        assert s[j..j + |SliceDirs|][0] == s[j];
      }
    }
  }

  /** The builder's slice name for `/d/image/tif/p-t`, time 5 and plane 1. */
  lemma PaddedSliceExample()
    ensures AppendTimeAndPlaneTo8BitTifPrefix("/d/" + SliceDirs + ForwardSlash + "p" + TimeMarker8bit, 5, 1)
      == "/d/image/tif/p-t005-p01.tif"
  {
    assert "/d/" + SliceDirs + ForwardSlash + "p" + TimeMarker8bit == "/d/image/tif/p-t";
    assert IntToString(1) == "1" && FormatPlaneInteger(1) == "01";
    assert IntToString(5) == "5" && FormatTimeInteger(5) == "005";
  }

  /** The builder's slice name for `/d/image/tif/p-t`, time 100 and plane 1. */
  lemma UnpaddedSliceExample()
    ensures AppendTimeAndPlaneTo8BitTifPrefix("/d/" + SliceDirs + ForwardSlash + "p" + TimeMarker8bit, 100, 1)
      == "/d/image/tif/p-t100-p01.tif"
  {
    assert "/d/" + SliceDirs + ForwardSlash + "p" + TimeMarker8bit == "/d/image/tif/p-t";
    assert IntToString(1) == "1" && FormatPlaneInteger(1) == "01";
    assert IntToString(100) == "100" && FormatTimeInteger(100) == "100";
  }

  /** The rewrite's output for `/d/` and `p`, with a given time text. */
  lemma ExampleStackName(time: Int32, text: string, expected: string)
    requires (time == 5 && text == "5" && expected == "/d/p_t5.TIF")
          || (time == 100 && text == "-t100" && expected == "/d/p_t-t100.TIF")
          || (time == 100 && text == "100" && expected == "/d/p_t100.TIF")
    ensures text == "-t100" ==> "/d/" + ("p" + [Underscore]) + TimeText + (TimeMarker8bit + IntToString(time)) + TifUpperExt == expected
    ensures text != "-t100" ==> "/d/" + ("p" + [Underscore]) + TimeText + IntToString(time) + TifUpperExt == expected
  {
    if time == 5 {
      assert IntToString(5) == "5";
    } else {
      assert IntToString(100) == "100";
    }
  }

  /** The slice `/d/image/tif/p-t005-p01.tif` becomes the stack `/d/p_t5.TIF`. */
  lemma ReconfigurePaddedExample(path: string)
    requires path == "/d/image/tif/p-t005-p01.tif"
    ensures Reconfigured8bitTo16bit(path) == Value("/d/p_t5.TIF")
  {
    SliceDirsAfterPlainRoot("/d/");
    PaddedSliceExample();
    ReconfigureEightBitName("/d/", "p", 5, 1);
    ExampleStackName(5, "5", "/d/p_t5.TIF");
  }

  /** The slice `/d/image/tif/p-t100-p01.tif` becomes `/d/p_t-t100.TIF`, with the marker kept;
      the intended rewrite gives `/d/p_t100.TIF`. */
  lemma ReconfigureUnpaddedExample(path: string)
    requires path == "/d/image/tif/p-t100-p01.tif"
    ensures Reconfigured8bitTo16bit(path) == Value("/d/p_t-t100.TIF")
    ensures Reconfigured8bitTo16bitIntended(path) == Value("/d/p_t100.TIF")
  {
    SliceDirsAfterPlainRoot("/d/");
    UnpaddedSliceExample();
    ReconfigureEightBitName("/d/", "p", 100, 1);
    ReconfigureIntendedEightBitName("/d/", "p", 100, 1);
    ExampleStackName(100, "-t100", "/d/p_t-t100.TIF");
    ExampleStackName(100, "100", "/d/p_t100.TIF");
  }
}
