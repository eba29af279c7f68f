/** The naming conventions of image series and the filename toolkit built on them:
    the markers, the name builders (time and plane tokens), and the name parsers
    (slice test, time extraction, prefix extraction). */
module ImageNames {
  import opened JavaStrings

  datatype Option<+T> = None | Some(value: T)

  // ---------------------------------------------------------------------------
  // Naming-convention constants

  const ForwardSlash: string := "/"
  /** The delimiter the source names BACKSLASH. It is the one-character string holding a
      double quote, not a backslash, and is modelled as it stands. */
  const Backslash: string := "\""
  const Underscore: char := '_'
  const Dash: char := '-'
  const Period: string := "."

  const EndOfChannelText: string := "_s"

  const Color: string := "Color"
  const Spim: string := "SPIM"
  const DiSpimDirectoryEnd: string := " nm"
  const DiSpimDirectoryNameLength: nat := 6

  const TimeText: string := "t"
  const TimeChar: char := 't'
  const TimeMarker8bit: string := "-t"
  const TimeMarker16bit: string := "_t"
  const TifUpperExt: string := ".TIF"
  const TifLowerExt: string := ".tif"
  const PlaneMarker: string := "-p"
  const PlaneMarkerAlt: string := "_p"
  const ZeroPad: string := "0"

  const TifDir: string := "/tif/"
  const TifRDir: string := "/tifR/"
  /** The directories below which 8-bit slices sit, relative to their 16-bit stacks. */
  const SliceDirs: string := "image/tif"
  const DeletedSliceDirs: string := "/image/tif/"

  // ---------------------------------------------------------------------------
  // Name builders

  /** formatTimeInteger: the time token of an 8-bit slice name, zero-padded to three digits. */
  function FormatTimeInteger(n: Int32): (r: string)
    ensures r == "" <==> n < 1
    ensures AllDigits(r)
    ensures n >= 1 ==> |r| >= 3
  {
    if n < 1 then ""
    else if n < 10 then ZeroPad + ZeroPad + IntToString(n)
    else if n < 100 then ZeroPad + IntToString(n)
    else NatToStringLength(n); IntToString(n)
  }

  /** formatPlaneInteger: the plane token of an 8-bit slice name, zero-padded to two digits. */
  function FormatPlaneInteger(n: Int32): (r: string)
    ensures r == "" <==> n < 1
    ensures AllDigits(r)
    ensures n >= 1 ==> |r| >= 2
  {
    if n < 1 then ""
    else if n < 10 then ZeroPad + IntToString(n)
    else NatToStringLength(n); IntToString(n)
  }

  /** The time token is empty below 1; from 1 on it is a digit string with the value n, whose
      first digit is a padding '0' exactly when n < 100, three digits long up to 999. */
  lemma FormatTimeIntegerMeaning(n: Int32)
    ensures n < 1 ==> FormatTimeInteger(n) == ""
    ensures AllDigits(FormatTimeInteger(n))
    ensures n >= 1 ==> DigitsValue(FormatTimeInteger(n)) == n
    ensures n >= 1 ==> (FormatTimeInteger(n)[0] == '0' <==> n < 100)
    ensures 1 <= n <= 999 ==> |FormatTimeInteger(n)| == 3
    ensures n >= 1000 ==> |FormatTimeInteger(n)| >= 4
  {
    if n >= 1 {
      var digits := NatToString(n);
      NatToStringValue(n);
      NatToStringLength(n);
      if n < 10 {
        LeadingZeroValue(digits);
        LeadingZeroValue("0" + digits);
        assert FormatTimeInteger(n) == "0" + ("0" + digits);
      } else if n < 100 {
        LeadingZeroValue(digits);
      }
    }
  }

  /** The plane token is empty below 1; from 1 on it is a digit string with the value n,
      two digits long up to 99 and at most three up to 999. */
  lemma FormatPlaneIntegerMeaning(n: Int32)
    ensures n < 1 ==> FormatPlaneInteger(n) == ""
    ensures AllDigits(FormatPlaneInteger(n))
    ensures n >= 1 ==> DigitsValue(FormatPlaneInteger(n)) == n
    ensures 1 <= n <= 99 ==> |FormatPlaneInteger(n)| == 2
    ensures n >= 100 ==> |FormatPlaneInteger(n)| >= 3
    ensures |FormatPlaneInteger(n)| <= 3 <==> n <= 999
  {
    if n >= 1 {
      NatToStringValue(n);
      NatToStringLength(n);
      if n < 10 {
        LeadingZeroValue(NatToString(n));
      }
    }
  }

  /** appendTimeAndPlaneTo8BittifPrefix: `<prefix><time>-p<plane>.tif`. */
  function AppendTimeAndPlaneTo8BitTifPrefix(prefix: string, time: Int32, plane: Int32): (r: string)
    ensures StartsWith(r, prefix) && EndsWith(r, TifLowerExt)
    ensures 1 <= time <= 999 && 1 <= plane <= 99 ==> |r| == |prefix| + 11
  {
    FormatTimeIntegerMeaning(time);
    FormatPlaneIntegerMeaning(plane);
    prefix + FormatTimeInteger(time) + PlaneMarker + FormatPlaneInteger(plane) + TifLowerExt
  }

  /** appendTimeToSingle16BitTIFPrefix: the unpadded time and `.TIF` after a prefix ending in
      `t`, `.tif` after any other (diSPIM) prefix. Reading the last character of an empty
      prefix throws. */
  function AppendTimeToSingle16BitTifPrefix(prefix: string, time: Int32): (r: Outcome<string>)
    ensures r.Throws? <==> prefix == ""
    ensures r.Throws? ==> r.exception == StringIndexOutOfBounds
    ensures r.Value? ==> StartsWith(r.v, prefix) && (EndsWith(r.v, TifUpperExt) || EndsWith(r.v, TifLowerExt))
    ensures r.Value? ==> (EndsWith(r.v, TifUpperExt) <==> prefix[|prefix| - 1] == TimeChar)
  {
    var last :- CharAt(prefix, |prefix| - 1);
    if last == TimeChar then Value(prefix + IntToString(time) + TifUpperExt)
    else Value(prefix + IntToString(time) + TifLowerExt)
  }

  /** The name the multiple-prefix builder gives a prefix: "" for an empty prefix, else its
      single-prefix name. */
  predicate NamedAtTime(prefix: string, time: Int32, name: string) {
    if prefix == "" then name == "" else AppendTimeToSingle16BitTifPrefix(prefix, time) == Value(name)
  }

  /** appendTimeToMultiple16BitTifPrefixes: a new array holding, for each prefix, its name at
      the given time, or the empty string for an empty prefix. */
  method AppendTimeToMultiple16BitTifPrefixes(prefixes: array<string>, time: Int32) returns (names: array<string>)
    ensures fresh(names) && names.Length == prefixes.Length
    ensures forall i :: 0 <= i < prefixes.Length ==> NamedAtTime(prefixes[i], time, names[i])
  {
    names := new string[prefixes.Length];
    for i := 0 to prefixes.Length
      invariant forall k :: 0 <= k < i ==> NamedAtTime(prefixes[k], time, names[k])
    {
      if prefixes[i] != "" {
        var name := AppendTimeToSingle16BitTifPrefix(prefixes[i], time);
        names[i] := name.v;
      } else {
        names[i] := "";
      }
    }
  }

  // ---------------------------------------------------------------------------
  // Name tests

  /** doesImageFollow8bitDeletedConvention. */
  function DoesImageFollow8bitDeletedConvention(filename: string): (b: bool)
    ensures b <==> exists i :: OccursAt(filename, DeletedSliceDirs, i)
  {
    filename != "" && Contains(filename, DeletedSliceDirs)
  }

  /** The last path segment together with its leading delimiter, cut as isSliceImage cuts it:
      from the last `/`, else from the last BACKSLASH, else empty. */
  function SegmentFromLastDelimiter(filename: string): string {
    if LastIndexOf(filename, ForwardSlash) != -1 then filename[LastIndexOf(filename, ForwardSlash)..]
    else if LastIndexOf(filename, Backslash) != -1 then filename[LastIndexOf(filename, Backslash)..]
    else ""
  }

  /** isSliceImage: the last segment has `-p` at its last dash, at most five characters before
      its last period; the `_p` form is tried only when the segment has no dash at all.
      Taking the two characters at a dash or underscore that ends the segment throws. */
  function IsSliceImage(filename: string): (r: Outcome<bool>)
    ensures r.Throws? ==> r.exception == StringIndexOutOfBounds
    ensures SegmentFromLastDelimiter(filename) == "" ==> r == Value(false)
    ensures r == Value(true) ==>
      OccursAt(SegmentFromLastDelimiter(filename), PlaneMarker, LastIndexOf(SegmentFromLastDelimiter(filename), [Dash]))
      || OccursAt(SegmentFromLastDelimiter(filename), PlaneMarkerAlt, LastIndexOf(SegmentFromLastDelimiter(filename), [Underscore]))
  {
    if filename == "" then Value(false)
    else
      var imageName := SegmentFromLastDelimiter(filename);
      if imageName == "" then Value(false)
      else
        var period := LastIndexOf(imageName, Period);
        var dash := LastIndexOf(imageName, [Dash]);
        var underscore := LastIndexOf(imageName, [Underscore]);
        if period != -1 && dash != -1 then
          var marker :- Substring(imageName, dash, dash + 2);
          Value(marker == PlaneMarker && period - dash <= 5)
        else if period != -1 && underscore != -1 then
          var marker :- Substring(imageName, underscore, underscore + 2);
          Value(marker == PlaneMarkerAlt && period - underscore <= 5)
        else Value(false)
  }

  // ---------------------------------------------------------------------------
  // Time extraction

  predicate IsDelimiter(c: char) { c == Underscore || c == Dash }

  /** The index of the last `_` or `-` in `s`, or -1. */
  function LastDelimiterIndex(s: string): (r: int)
    ensures r == -1 || (0 <= r < |s| && IsDelimiter(s[r]))
    ensures forall k :: r < k < |s| ==> !IsDelimiter(s[k])
  {
    if s == "" then -1
    else if IsDelimiter(s[|s| - 1]) then |s| - 1
    else LastDelimiterIndex(s[..|s| - 1])
  }

  /** The digits of `s`, in order, with every other character dropped. */
  function DigitsOf(s: string): (r: string)
    ensures AllDigits(r) && |r| <= |s|
  {
    if s == "" then ""
    else (if IsDigit(s[0]) then [s[0]] else []) + DigitsOf(s[1..])
  }

  /** The time read from the digits between `-t` and `-p`: -1 for fewer than three characters,
      else the number after dropping one or two leading zeros. */
  function UnpaddedTime(digits: string): Outcome<Int32> {
    if |digits| < 3 then Value(-1)
    else if NumericValue(digits[0]) == 0 then
      if NumericValue(digits[1]) == 0 then ParseInt(digits[2..]) else ParseInt(digits[1..])
    else ParseInt(digits)
  }

  /** What extractTimeFromImageFileName returns. After cutting the name at its last `/`
      (which throws when there is none), three grammars are tried in order:
      `-t<digits>-p` (at least three digits, up to two leading zeros dropped),
      `_t<digits>.TIF`, and, with neither time marker present, the digits after the last
      `_` or `-` before `.tif` (other characters skipped). -1 when none applies. */
  function TimeFromFileName(filename: string): (r: Outcome<Int32>)
    ensures filename == "" ==> r == Value(-1)
    ensures filename != "" && LastIndexOf(filename, ForwardSlash) == -1 ==> r == Throws(StringIndexOutOfBounds)
  {
    if filename == "" then Value(-1)
    else
      var name :- SubstringFrom(filename, LastIndexOf(filename, ForwardSlash));
      TimeFromName(name)
  }

  /** The choice of grammar for the time of a name cut at its last `/`. */
  function TimeFromName(name: string): Outcome<Int32> {
    if Contains(name, TimeMarker8bit) && Contains(name, PlaneMarker) then SliceNameTime(name)
    else if Contains(name, TimeMarker16bit) && Contains(name, TifUpperExt) then StackNameTime(name)
    else if !Contains(name, TimeMarker8bit) && !Contains(name, TimeMarker16bit) && Contains(name, TifLowerExt) then
      DiSpimNameTime(name)
    else Value(-1)
  }

  /** The `-t<digits>-p` grammar: cutting from the last `-t` to a `-p` before it throws. */
  function SliceNameTime(name: string): Outcome<Int32> {
    var digits :- Substring(name, LastIndexOf(name, TimeMarker8bit) + |TimeMarker8bit|, LastIndexOf(name, PlaneMarker));
    UnpaddedTime(digits)
  }

  /** The `_t<digits>.TIF` grammar: cutting from the last `_t` to a `.TIF` before it throws. */
  function StackNameTime(name: string): Outcome<Int32> {
    var digits :- Substring(name, LastIndexOf(name, TimeMarker16bit) + |TimeMarker16bit|, IndexOf(name, TifUpperExt));
    ParseInt(digits)
  }

  /** The diSPIM grammar: the digits after the last delimiter before the first `.tif`. */
  function DiSpimNameTime(name: string): Outcome<Int32>
    requires Contains(name, TifLowerExt)
  {
    var stem := name[..IndexOf(name, TifLowerExt)];
    var d := LastDelimiterIndex(stem);
    if d == -1 then Value(-1) else ParseInt(DigitsOf(stem[d + 1..]))
  }

  /** extractTimeFromImageFileName, with its backward scan for the diSPIM grammar. */
  method ExtractTimeFromImageFileName(filename: string) returns (r: Outcome<Int32>)
    ensures r == TimeFromFileName(filename)
  {
    if filename == "" {
      return Value(-1);
    }
    var name :- SubstringFrom(filename, LastIndexOf(filename, ForwardSlash));
    assert TimeFromFileName(filename) == TimeFromName(name);
    if Contains(name, TimeMarker8bit) && Contains(name, PlaneMarker) {
      r := ReadSliceTime(name);
    } else if Contains(name, TimeMarker16bit) && Contains(name, TifUpperExt) {
      assert TimeFromName(name) == StackNameTime(name);
      var digits :- Substring(name, LastIndexOf(name, TimeMarker16bit) + |TimeMarker16bit|, IndexOf(name, TifUpperExt));
      r := ParseInt(digits);
    } else if !Contains(name, TimeMarker8bit) && !Contains(name, TimeMarker16bit) && Contains(name, TifLowerExt) {
      r := ScanDiSpimTime(name);
    } else {
      r := Value(-1);
    }
  }

  /** The `-t<digits>-p` branch of extractTimeFromImageFileName. */
  method ReadSliceTime(name: string) returns (r: Outcome<Int32>)
    ensures r == SliceNameTime(name)
  {
    var digits :- Substring(name, LastIndexOf(name, TimeMarker8bit) + |TimeMarker8bit|, LastIndexOf(name, PlaneMarker));
    if |digits| < 3 {
      return Value(-1);
    }
    if NumericValue(digits[0]) == 0 {
      if NumericValue(digits[1]) == 0 {
        return ParseInt(digits[2..]);
      }
      return ParseInt(digits[1..]);
    }
    return ParseInt(digits);
  }

  /** The backward scan of extractTimeFromImageFileName's diSPIM grammar: digits are collected
      from the first `.tif` back to the nearest `_` or `-`. */
  method ScanDiSpimTime(name: string) returns (r: Outcome<Int32>)
    requires Contains(name, TifLowerExt)
    ensures r == DiSpimNameTime(name)
  {
    var stem := name[..IndexOf(name, TifLowerExt)];
    var timeText := "";
    for i := |stem| downto 0
      invariant timeText == DigitsOf(stem[i..])
      invariant forall k :: i <= k < |stem| ==> !IsDelimiter(stem[k])
    {
      assert stem[i..][1..] == stem[i + 1..];
      if IsDigit(stem[i]) {
        timeText := [stem[i]] + timeText;
      } else if stem[i] == Underscore || stem[i] == Dash {
        LastDelimiterIndexIs(stem, i);
        return ParseInt(timeText);
      }
    }
    LastDelimiterIndexIs(stem, -1);
    return Value(-1);
  }

  /** LastDelimiterIndex is the delimiter after which no delimiter follows. */
  lemma LastDelimiterIndexIs(s: string, i: int)
    requires i == -1 || (0 <= i < |s| && IsDelimiter(s[i]))
    requires forall k :: i < k < |s| ==> !IsDelimiter(s[k])
    ensures LastDelimiterIndex(s) == i
  {
  }

  /** A `-t`/`-p` run shorter than three characters reads as -1. */
  lemma ShortSliceTime(name: string)
    requires 0 <= LastIndexOf(name, TimeMarker8bit)
    requires LastIndexOf(name, TimeMarker8bit) + 2 <= LastIndexOf(name, PlaneMarker) < LastIndexOf(name, TimeMarker8bit) + 5
    ensures SliceNameTime(name) == Value(-1)
  {
  }

  /** A diSPIM stem with no `_` or `-` reads as -1. */
  lemma UndelimitedDiSpimTime(name: string)
    requires Contains(name, TifLowerExt)
    requires forall k :: 0 <= k < IndexOf(name, TifLowerExt) ==> !IsDelimiter(name[k])
    ensures DiSpimNameTime(name) == Value(-1)
  {
    LastDelimiterIndexIs(name[..IndexOf(name, TifLowerExt)], -1);
  }

  /** The fallbacks of extractTimeFromImageFileName on a name cut at its last `/`: -1 for a
      `-t`/`-p` run shorter than three characters, for a `.tif` stem with no delimiter, and
      for a name matching none of the grammars. */
  lemma NameTimeFallbacks(name: string)
    ensures Contains(name, PlaneMarker) && 0 <= LastIndexOf(name, TimeMarker8bit)
      && LastIndexOf(name, TimeMarker8bit) + 2 <= LastIndexOf(name, PlaneMarker) < LastIndexOf(name, TimeMarker8bit) + 5
      ==> TimeFromName(name) == Value(-1)
    ensures !Contains(name, TimeMarker8bit) && !Contains(name, TimeMarker16bit) && Contains(name, TifLowerExt)
      && (forall k :: 0 <= k < IndexOf(name, TifLowerExt) ==> !IsDelimiter(name[k]))
      ==> TimeFromName(name) == Value(-1)
    ensures !(Contains(name, TimeMarker8bit) && Contains(name, PlaneMarker))
      && !(Contains(name, TimeMarker16bit) && Contains(name, TifUpperExt))
      && !(!Contains(name, TimeMarker8bit) && !Contains(name, TimeMarker16bit) && Contains(name, TifLowerExt))
      ==> TimeFromName(name) == Value(-1)
  {
    if Contains(name, PlaneMarker) && 0 <= LastIndexOf(name, TimeMarker8bit)
      && LastIndexOf(name, TimeMarker8bit) + 2 <= LastIndexOf(name, PlaneMarker) < LastIndexOf(name, TimeMarker8bit) + 5
    {
      assert OccursAt(name, TimeMarker8bit, LastIndexOf(name, TimeMarker8bit));
      assert TimeFromName(name) == SliceNameTime(name);
      ShortSliceTime(name);
    } else if !Contains(name, TimeMarker8bit) && !Contains(name, TimeMarker16bit) && Contains(name, TifLowerExt)
      && (forall k :: 0 <= k < IndexOf(name, TifLowerExt) ==> !IsDelimiter(name[k]))
    {
      assert TimeFromName(name) == DiSpimNameTime(name);
      UndelimitedDiSpimTime(name);
    }
  }

  /** The path-level fallbacks: -1 for an empty name, a throw for a name with no `/`, and
      otherwise the time of the segment from the last `/`. */
  lemma TimeOfPath(filename: string)
    ensures filename == "" ==> TimeFromFileName(filename) == Value(-1)
    ensures filename != "" && !Contains(filename, ForwardSlash) ==> TimeFromFileName(filename) == Throws(StringIndexOutOfBounds)
    ensures filename != "" && Contains(filename, ForwardSlash) ==>
      0 <= LastIndexOf(filename, ForwardSlash) && TimeFromFileName(filename) == TimeFromName(filename[LastIndexOf(filename, ForwardSlash)..])
  {
    if filename != "" && Contains(filename, ForwardSlash) {
      var slash := LastIndexOf(filename, ForwardSlash);
      var i :| OccursAt(filename, ForwardSlash, i);
      assert OccursAt(filename, ForwardSlash, slash);
      assert filename[slash..|filename|] == filename[slash..];
      assert SubstringFrom(filename, slash) == Value(filename[slash..]);
    }
  }

  // ---------------------------------------------------------------------------
  // Prefix extraction

  /** What getImagePrefix returns. A slice name gives everything through its last `-t`;
      otherwise a name with `_t` gives everything through its last `_t`; otherwise the
      diSPIM reading below applies. */
  function ImagePrefix(imageName: string): (r: Outcome<string>)
    ensures r.Throws? ==> r.exception == StringIndexOutOfBounds
    ensures imageName == "" ==> r == Value("")
    ensures r.Value? ==> |r.v| <= |imageName|
  {
    if imageName == "" then Value("")
    else
      var slice :- IsSliceImage(imageName);
      if slice then Value(imageName[..LastIndexOf(imageName, TimeMarker8bit) + |TimeMarker8bit|])
      else if IndexOf(imageName, TimeMarker16bit) != -1 then
        Value(imageName[..LastIndexOf(imageName, TimeMarker16bit) + |TimeMarker16bit|])
      else DiSpimPrefix(imageName)
  }

  /** The separator a diSPIM name puts before its time: `_` (fused) when the last segment,
      cut at the last `/`, has one, else `-` (single view); None when it has neither. */
  function DiSpimSeparator(name: string): Option<char> {
    if LastIndexOf(name, [Underscore]) != -1 then Some(Underscore)
    else if LastIndexOf(name, [Dash]) != -1 then Some(Dash)
    else None
  }

  /** The diSPIM reading of getImagePrefix: everything through the last separator, provided
      only digits lie between it and the first `.tif`, else "". Cutting at a missing `/` or
      before a missing or misplaced `.tif` throws. */
  function DiSpimPrefix(imageName: string): (r: Outcome<string>)
    ensures r.Throws? ==> r.exception == StringIndexOutOfBounds
    ensures LastIndexOf(imageName, ForwardSlash) == -1 ==> r == Throws(StringIndexOutOfBounds)
    ensures r.Value? ==> |r.v| <= |imageName|
  {
    var name :- SubstringFrom(imageName, LastIndexOf(imageName, ForwardSlash));
    match DiSpimSeparator(name)
    case None => Value("")
    case Some(separator) =>
      var start := LastIndexOf(imageName, [separator]) + 1;
      var timeText :- Substring(imageName, start, IndexOf(imageName, TifLowerExt));
      if AllDigits(timeText) then Value(imageName[..start]) else Value("")
  }

  /** getImagePrefix; its diSPIM fallback is GetDiSpimPrefix. */
  method GetImagePrefix(imageName: string) returns (r: Outcome<string>)
    ensures r == ImagePrefix(imageName)
  {
    if imageName == "" {
      return Value("");
    }
    var slice :- IsSliceImage(imageName);
    if slice {
      return Value(imageName[..LastIndexOf(imageName, TimeMarker8bit) + |TimeMarker8bit|]);
    }
    if IndexOf(imageName, TimeMarker16bit) != -1 {
      return Value(imageName[..LastIndexOf(imageName, TimeMarker16bit) + |TimeMarker16bit|]);
    }
    assert ImagePrefix(imageName) == DiSpimPrefix(imageName);
    r := GetDiSpimPrefix(imageName);
  }

  /** The diSPIM fallback of getImagePrefix, with its digit-validation loop. */
  method GetDiSpimPrefix(imageName: string) returns (r: Outcome<string>)
    ensures r == DiSpimPrefix(imageName)
  {
    var name :- SubstringFrom(imageName, LastIndexOf(imageName, ForwardSlash));
    var separator: char;
    if LastIndexOf(name, [Underscore]) != -1 {
      separator := Underscore;
    } else if LastIndexOf(name, [Dash]) != -1 {
      separator := Dash;
    } else {
      return Value("");
    }
    assert DiSpimSeparator(name) == Some(separator);
    var start := LastIndexOf(imageName, [separator]) + 1;
    var timeText :- Substring(imageName, start, IndexOf(imageName, TifLowerExt));
    var digitsOnly := ScanDigits(timeText);
    if !digitsOnly {
      return Value("");
    }
    return Value(imageName[..start]);
  }

  /** The digit-validation loop of getImagePrefix: stops at the first non-digit. */
  method ScanDigits(s: string) returns (b: bool)
    ensures b == AllDigits(s)
  {
    for i := 0 to |s|
      invariant AllDigits(s[..i])
    {
      if !IsDigit(s[i]) {
        assert !AllDigits(s) by {
          assert s[i] == s[i];
        }
        return false;
      }
    }
    assert s[..|s|] == s;
    return true;
  }

  /** A non-empty diSPIM prefix is the start of the name through a `_` or `-`, and only digits
      lie between it and the first `.tif` after it. */
  lemma DiSpimPrefixShape(imageName: string, r: Outcome<string>)
    requires r == DiSpimPrefix(imageName)
    ensures r.Value? ==> StartsWith(imageName, r.v)
    ensures r.Value? && r.v != "" ==> IsDelimiter(r.v[|r.v| - 1])
    ensures r.Value? && r.v != "" ==>
      |r.v| <= IndexOf(imageName, TifLowerExt) && AllDigits(imageName[|r.v|..IndexOf(imageName, TifLowerExt)])
  {
    if r.Value? && r.v != "" {
      var name := SubstringFrom(imageName, LastIndexOf(imageName, ForwardSlash)).v;
      var separator := DiSpimSeparator(name).value;
      var at := LastIndexOf(imageName, [separator]);
      assert imageName[at..at + 1] == [separator];
      assert r.v == imageName[..at + 1];
    }
  }

  /** What getImagePrefix returns starts the name. A non-empty result ends in `-t`, `_t` or a
      diSPIM separator, except that a slice name without `-t` gives its first character. */
  lemma ImagePrefixShape(imageName: string, r: Outcome<string>)
    requires r == ImagePrefix(imageName)
    ensures r.Value? ==> StartsWith(imageName, r.v)
    ensures r.Value? && r.v != "" ==>
      EndsWith(r.v, TimeMarker8bit) || EndsWith(r.v, TimeMarker16bit) || IsDelimiter(r.v[|r.v| - 1])
      || (|r.v| == 1 && !Contains(imageName, TimeMarker8bit) && IsSliceImage(imageName) == Value(true))
  {
    if imageName != "" && IsSliceImage(imageName).Value? {
      if IsSliceImage(imageName).v {
        var i := LastIndexOf(imageName, TimeMarker8bit);
        if i != -1 {
          assert r.v[|r.v| - 2..] == imageName[i..i + 2];
        } else {
          assert !OccursAt(imageName, TimeMarker8bit, IndexOf(imageName, TimeMarker8bit));
        }
      } else if IndexOf(imageName, TimeMarker16bit) != -1 {
        var i := LastIndexOf(imageName, TimeMarker16bit);
        assert OccursAt(imageName, TimeMarker16bit, IndexOf(imageName, TimeMarker16bit));
        assert r.v[|r.v| - 2..] == imageName[i..i + 2];
      } else {
        DiSpimPrefixShape(imageName, r);
      }
    }
  }

  /** appendTimeToSingle16BitTIFPrefix throws exactly on an empty prefix; otherwise the name is
      the prefix and the time's text followed by `.TIF` when the prefix ends in `t`, by `.tif`
      when it does not. */
  lemma SingleNameExtension(prefix: string, time: Int32)
    ensures AppendTimeToSingle16BitTifPrefix(prefix, time).Throws? <==> prefix == ""
    ensures prefix != "" ==> StartsWith(AppendTimeToSingle16BitTifPrefix(prefix, time).v, prefix + IntToString(time))
    ensures prefix != "" ==>
      (EndsWith(AppendTimeToSingle16BitTifPrefix(prefix, time).v, TifUpperExt) <==> prefix[|prefix| - 1] == TimeChar)
    ensures prefix != "" ==>
      (EndsWith(AppendTimeToSingle16BitTifPrefix(prefix, time).v, TifLowerExt) <==> prefix[|prefix| - 1] != TimeChar)
  {
    if prefix != "" {
      var stem := prefix + IntToString(time);
      var name := AppendTimeToSingle16BitTifPrefix(prefix, time).v;
      var ext := if prefix[|prefix| - 1] == TimeChar then TifUpperExt else TifLowerExt;
      assert name == stem + ext;
      assert name[..|stem|] == stem;
      assert name[|name| - 4..] == ext;
      assert ext[1] == TifUpperExt[1] <==> prefix[|prefix| - 1] == TimeChar;
    }
  }
}
