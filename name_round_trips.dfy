/** The name parsers read back what the name builders write: the time of a built slice or
    stack name, the verdict of the slice test on it, and its prefix. */
module NameRoundTrips {
  import opened JavaStrings
  import opened ImageNames

  // ---------------------------------------------------------------------------
  // Shared facts about built names

  /** The padded time token reads back as its time. */
  lemma UnpaddedTimeOfToken(time: Int32)
    requires time >= 1
    ensures UnpaddedTime(FormatTimeInteger(time)) == Value(time)
  {
    var token := FormatTimeInteger(time);
    FormatTimeIntegerMeaning(time);
    ParseIntOfIntToString(time);
    NatToStringLength(time);
    if time < 10 {
      assert token == "00" + IntToString(time);
      assert token[2..] == IntToString(time);
    } else if time < 100 {
      assert token == "0" + IntToString(time);
      assert token[1..] == IntToString(time);
      assert token[1] == IntToString(time)[0];
    }
  }

  /** The text a slice-name builder puts after its prefix: digits, `-p`, digits, `.tif`.
      Its one dash is the plane marker's, and it holds no `/` and no `_`. */
  lemma EightBitTail(timeToken: string, planeToken: string, tail: string)
    requires AllDigits(timeToken) && AllDigits(planeToken)
    requires tail == timeToken + PlaneMarker + planeToken + TifLowerExt
    ensures |tail| == |timeToken| + |planeToken| + 6
    ensures tail[|timeToken|] == Dash && tail[|timeToken| + 1] == 'p'
    ensures forall k :: 0 <= k < |tail| && tail[k] == Dash ==> k == |timeToken|
    ensures forall k :: 0 <= k < |tail| ==> tail[k] != '/' && tail[k] != Underscore && tail[k] != '"'
    ensures tail[..|timeToken|] == timeToken
    ensures tail[|tail| - 4] == '.' && forall k :: 0 <= k < |tail| && k != |tail| - 4 ==> tail[k] != '.'
  {
    var n := |timeToken|;
    var m := |planeToken|;
    forall k | 0 <= k < |tail|
      ensures k < n ==> tail[k] == timeToken[k]
      ensures n + 2 <= k < n + 2 + m ==> tail[k] == planeToken[k - n - 2]
      ensures n + 2 + m <= k ==> tail[k] == TifLowerExt[k - n - 2 - m]
    {
    }
  }

  /** Text appended after the last `/` of a path, holding no `/` itself, leaves that `/` last. */
  lemma LastSlashKept(p: string, tail: string, slash: nat)
    requires slash == LastIndexOf(p, ForwardSlash)
    requires forall k :: 0 <= k < |tail| ==> tail[k] != '/'
    ensures LastIndexOf(p + tail, ForwardSlash) == slash
    ensures (p + tail)[slash..] == p[slash..] + tail
  {
    CharOccurrences(p, '/');
    assert p[slash] == '/';
    LastIndexOfCharIs(p + tail, '/', slash);
  }

  /** What follows the prefix in a slice name: the time token, then `-p` with the only dash,
      and no `/`. */
  ghost predicate SliceNameTail(tail: string, timeToken: string) {
    && |tail| >= |timeToken| + 2 && tail[..|timeToken|] == timeToken
    && tail[|timeToken|] == Dash && tail[|timeToken| + 1] == 'p'
    && (forall k :: 0 <= k < |tail| && tail[k] == Dash ==> k == |timeToken|)
    && (forall k :: 0 <= k < |tail| ==> tail[k] != '/')
  }

  /** A slice-name tail that also ends in `.tif`, whose period is its only one, after a plane
      token of the given length. */
  ghost predicate SliceTail(tail: string, timeToken: string, planeToken: string) {
    && SliceNameTail(tail, timeToken)
    && |tail| == |timeToken| + |planeToken| + 6
    && tail[|tail| - 4] == '.' && (forall k :: 0 <= k < |tail| && k != |tail| - 4 ==> tail[k] != '.')
    && (forall k :: 0 <= k < |tail| ==> tail[k] != Underscore && tail[k] != '"')
  }

  /** What a slice-name builder writes after its prefix, for any time and plane. */
  lemma SliceTailOf(time: Int32, plane: Int32) returns (tail: string, timeToken: string, planeToken: string)
    ensures tail == FormatTimeInteger(time) + PlaneMarker + FormatPlaneInteger(plane) + TifLowerExt
    ensures SliceTail(tail, timeToken, planeToken)
    ensures |planeToken| <= 3 <==> plane <= 999
    ensures time >= 1 ==> UnpaddedTime(timeToken) == Value(time)
  {
    timeToken := FormatTimeInteger(time);
    planeToken := FormatPlaneInteger(plane);
    FormatTimeIntegerMeaning(time);
    FormatPlaneIntegerMeaning(plane);
    tail := timeToken + PlaneMarker + planeToken + TifLowerExt;
    EightBitTail(timeToken, planeToken, tail);
    if time >= 1 {
      UnpaddedTimeOfToken(time);
    }
  }

  /** A built slice name is its prefix followed by a slice tail. */
  lemma BuiltSliceName(prefix: string, time: Int32, plane: Int32) returns (tail: string, timeToken: string, planeToken: string)
    ensures AppendTimeAndPlaneTo8BitTifPrefix(prefix, time, plane) == prefix + tail
    ensures SliceTail(tail, timeToken, planeToken)
    ensures |planeToken| <= 3 <==> plane <= 999
    ensures time >= 1 ==> UnpaddedTime(timeToken) == Value(time)
  {
    tail, timeToken, planeToken := SliceTailOf(time, plane);
    PrefixedSliceName(prefix, time, plane, tail);
  }

  /** A slice name is its prefix followed by everything the builder writes after it. */
  lemma PrefixedSliceName(prefix: string, time: Int32, plane: Int32, tail: string)
    requires tail == FormatTimeInteger(time) + PlaneMarker + FormatPlaneInteger(plane) + TifLowerExt
    ensures AppendTimeAndPlaneTo8BitTifPrefix(prefix, time, plane) == prefix + tail
  {
    var t, p := FormatTimeInteger(time), FormatPlaneInteger(plane);
    assert prefix + t + PlaneMarker == prefix + (t + PlaneMarker);
    assert prefix + (t + PlaneMarker) + p == prefix + (t + PlaneMarker + p);
    assert prefix + (t + PlaneMarker + p) + TifLowerExt == prefix + tail;
  }

  /** The last segment of a path that ends in `-t` ends in `-t` too. */
  lemma SegmentEndsWithTimeMarker(prefix: string, slash: nat, q: string)
    requires slash == LastIndexOf(prefix, ForwardSlash) && EndsWith(prefix, TimeMarker8bit)
    requires q == prefix[slash..]
    ensures |q| >= 3 && q[|q| - 2] == Dash && q[|q| - 1] == TimeChar
  {
    assert OccursAt(prefix, ForwardSlash, slash);
    assert prefix[slash..slash + 1][0] == prefix[slash];
    var e := prefix[|prefix| - 2..];
    assert e[0] == prefix[|prefix| - 2] && e[1] == prefix[|prefix| - 1];
  }

  // ---------------------------------------------------------------------------
  // extractTimeFromImageFileName on built names

  /** In the last segment of a built slice name, the time marker closing the prefix is the
      last `-t`, the plane marker is the last `-p`, and the time token lies between them. */
  lemma EightBitSegmentMarkers(q: string, timeToken: string, tail: string, name: string, t8: nat, tp: nat)
    requires |q| >= 2 && q[|q| - 2] == Dash && q[|q| - 1] == TimeChar
    requires SliceNameTail(tail, timeToken)
    requires name == q + tail && t8 == |q| - 2 && tp == |q| + |timeToken|
    ensures LastIndexOf(name, TimeMarker8bit) == t8 && LastIndexOf(name, PlaneMarker) == tp
    ensures t8 + 2 <= tp <= |name| && name[t8 + 2..tp] == timeToken
  {
    assert forall k :: |q| <= k < |name| ==> name[k] == tail[k - |q|];
    LastIndexOfPairIs(name, Dash, TimeChar, |q| - 2);
    LastIndexOfPairIs(name, Dash, 'p', |q| + |timeToken|);
    assert name[|q|..|q| + |timeToken|] == tail[..|timeToken|];
  }

  /** The markers of the `-t…-p` grammar located in the last segment `name` of `f`, with the
      token between them reading as `time`. */
  ghost predicate SliceTimeReadable(f: string, name: string, t8: nat, tp: nat, timeToken: string, time: Int32) {
    && f != "" && LastIndexOf(f, ForwardSlash) != -1 && name == f[LastIndexOf(f, ForwardSlash)..]
    && LastIndexOf(name, TimeMarker8bit) == t8 && LastIndexOf(name, PlaneMarker) == tp
    && t8 + 2 <= tp <= |name| && name[t8 + 2..tp] == timeToken
    && UnpaddedTime(timeToken) == Value(time)
  }

  /** The `-t…-p` grammar of extractTimeFromImageFileName, once its markers are located. */
  lemma TimeFromSliceSegment(f: string, name: string, t8: nat, tp: nat, timeToken: string, time: Int32)
    requires SliceTimeReadable(f, name, t8, tp, timeToken, time)
    ensures TimeFromFileName(f) == Value(time)
  {
    var slash := LastIndexOf(f, ForwardSlash);
    assert f[slash..|f|] == f[slash..];
    assert SubstringFrom(f, slash) == Value(name);
    assert OccursAt(name, TimeMarker8bit, t8) && OccursAt(name, PlaneMarker, tp);
    assert TimeFromName(name) == SliceNameTime(name);
    assert Substring(name, t8 + 2, tp) == Value(timeToken);
  }

  /** A slice name, cut at its last `/`, with the markers of that segment. */
  lemma SliceNameParts(prefix: string, time: Int32, plane: Int32, slash: nat)
    returns (f: string, name: string, t8: nat, tp: nat, timeToken: string)
    requires slash == LastIndexOf(prefix, ForwardSlash)
    requires EndsWith(prefix, TimeMarker8bit)
    requires time >= 1
    ensures AppendTimeAndPlaneTo8BitTifPrefix(prefix, time, plane) == f
    ensures SliceTimeReadable(f, name, t8, tp, timeToken, time)
  {
    var tail, planeToken;
    tail, timeToken, planeToken := BuiltSliceName(prefix, time, plane);
    f := prefix + tail;
    LastSlashKept(prefix, tail, slash);
    var q := prefix[slash..];
    SegmentEndsWithTimeMarker(prefix, slash, q);
    name := q + tail;
    t8, tp := |q| - 2, |q| + |timeToken|;
    EightBitSegmentMarkers(q, timeToken, tail, name, t8, tp);
  }

  /** extractTimeFromImageFileName recovers the time of a slice name built from a prefix that
      holds a `/` and ends in `-t`, for every time and plane from 1 on. */
  lemma TimeOfEightBitName(prefix: string, time: Int32, plane: Int32, slash: nat)
    requires slash == LastIndexOf(prefix, ForwardSlash)
    requires EndsWith(prefix, TimeMarker8bit)
    requires time >= 1 && plane >= 1
    ensures TimeFromFileName(AppendTimeAndPlaneTo8BitTifPrefix(prefix, time, plane)) == Value(time)
  {
    var f, name, t8, tp, timeToken := SliceNameParts(prefix, time, plane, slash);
    TimeFromSliceSegment(f, name, t8, tp, timeToken, time);
  }

  // ---------------------------------------------------------------------------
  // Stack names

  /** What follows the prefix in a stack or diSPIM name: the time's digits and a four-character
      extension starting with its only period; no `/`, `-`, `_` or BACKSLASH. */
  ghost predicate StemTail(tail: string, digits: string, ext: string) {
    && digits != [] && AllDigits(digits) && |ext| == 4 && ext[0] == '.'
    && tail == digits + ext
    && (forall k :: 0 <= k < |tail| ==> tail[k] != '/' && tail[k] != Dash && tail[k] != Underscore && tail[k] != '"')
    && (forall k :: 0 <= k < |tail| && tail[k] == '.' ==> k == |digits|)
  }

  /** The time's text with an extension is a stem tail. */
  lemma TimeTextTail(time: Int32, ext: string) returns (tail: string, digits: string)
    requires time >= 0 && (ext == TifUpperExt || ext == TifLowerExt)
    ensures tail == IntToString(time) + ext && digits == IntToString(time)
    ensures StemTail(tail, digits, ext) && ParseInt(digits) == Value(time)
  {
    digits := IntToString(time);
    tail := digits + ext;
    ParseIntOfIntToString(time);
    forall k | 0 <= k < |tail|
      ensures k < |digits| ==> tail[k] == digits[k]
      ensures |digits| <= k ==> tail[k] == ext[k - |digits|]
    {
    }
  }

  /** A stack name is its prefix, the time's text and `.TIF` when the prefix ends in `t`. */
  lemma BuiltStackName(prefix: string, time: Int32) returns (tail: string, digits: string)
    requires |prefix| >= 1 && prefix[|prefix| - 1] == TimeChar && time >= 0
    ensures AppendTimeToSingle16BitTifPrefix(prefix, time) == Value(prefix + tail)
    ensures StemTail(tail, digits, TifUpperExt) && ParseInt(digits) == Value(time)
  {
    tail, digits := TimeTextTail(time, TifUpperExt);
    assert prefix + IntToString(time) + TifUpperExt == prefix + tail;
  }

  /** A two-character pattern absent from `q`, whose first character `tail` lacks, and that
      does not straddle the seam, is absent from `q + tail`. */
  lemma ConcatLacksPair(q: string, tail: string, c: char, d: char)
    requires !Contains(q, [c, d])
    requires forall k :: 0 <= k < |tail| ==> tail[k] != c
    requires q != [] && tail != [] ==> q[|q| - 1] != c || tail[0] != d
    ensures !Contains(q + tail, [c, d])
  {
    var name := q + tail;
    forall j | 0 <= j && j + 2 <= |name|
      ensures !OccursAt(name, [c, d], j)
    {
      var w := name[j..j + 2];
      assert w[0] == name[j] && w[1] == name[j + 1];
      if j + 1 < |q| {
        assert w == q[j..j + 2];
        assert !OccursAt(q, [c, d], j);
      } else if j + 1 == |q| {
        assert name[j] == q[|q| - 1] && name[j + 1] == tail[0];
      } else {
        assert name[j] == tail[j - |q|];
      }
    }
  }

  /** A character that `tail` lacks has its last occurrence in `q + tail` where it had it in `q`. */
  lemma LastCharKept(q: string, tail: string, c: char)
    requires forall k :: 0 <= k < |tail| ==> tail[k] != c
    ensures LastIndexOf(q + tail, [c]) == LastIndexOf(q, [c])
  {
    CharOccurrences(q, c);
    CharOccurrences(q + tail, c);
    var i := LastIndexOf(q, [c]);
    if i == -1 {
      assert c !in q + tail by {
        forall k | 0 <= k < |q + tail|
          ensures (q + tail)[k] != c
        {
          if k < |q| {
            assert (q + tail)[k] == q[k];
          } else {
            assert (q + tail)[k] == tail[k - |q|];
          }
        }
      }
      LastIndexOfCharAbsent(q + tail, c);
    } else {
      forall k | i < k < |q + tail|
        ensures (q + tail)[k] != c
      {
        if k < |q| {
          assert (q + tail)[k] == q[k];
        } else {
          assert (q + tail)[k] == tail[k - |q|];
        }
      }
      LastIndexOfCharIs(q + tail, c, i);
    }
  }

  /** The extension of a stem tail is the first occurrence of that extension after text that
      holds none and does not end in one of its characters; the digits lie before it. */
  lemma ExtensionAfterStem(q: string, digits: string, tail: string, ext: string, name: string)
    requires StemTail(tail, digits, ext) && name == q + tail
    requires !Contains(q, ext) && (q != [] ==> q[|q| - 1] !in ext)
    ensures IndexOf(name, ext) == |q| + |digits| && Contains(name, ext)
    ensures name[|q|..|q| + |digits|] == digits
  {
    FirstExtensionAfterStem(q, digits, tail, ext, name);
    assert name[|q|..|q| + |digits|] == tail[..|digits|];
    assert tail[..|digits|] == digits;
  }

  /** The occurrence-by-occurrence part of ExtensionAfterStem. */
  lemma FirstExtensionAfterStem(q: string, digits: string, tail: string, ext: string, name: string)
    requires StemTail(tail, digits, ext) && name == q + tail
    requires !Contains(q, ext) && (q != [] ==> q[|q| - 1] !in ext)
    ensures IndexOf(name, ext) == |q| + |digits|
  {
    var e := |q| + |digits|;
    assert name[e..] == ext by {
      assert name[e..] == tail[|digits|..];
    }
    assert OccursAt(name, ext, e) by {
      assert name[e..e + 4] == name[e..];
    }
    forall j | 0 <= j < e
      ensures !OccursAt(name, ext, j)
    {
      if j + 4 <= |name| {
        var w := name[j..j + 4];
        if j + 4 <= |q| {
          assert w == q[j..j + 4];
          assert !OccursAt(q, ext, j);
        } else if j < |q| {
          var m := |q| - 1 - j;
          assert w[m] == name[|q| - 1] == q[|q| - 1];
        } else {
          assert w[0] == name[j] == tail[j - |q|] == digits[j - |q|];
        }
      }
    }
  }

  /** The last segment of a stack name: its `_t` closing the prefix is the last `_t` and holds
      the last underscore, and it has no `-p`. */
  lemma StackSegmentMarkers(q: string, digits: string, tail: string, name: string)
    requires |q| >= 2 && q[|q| - 2] == Underscore && q[|q| - 1] == TimeChar
    requires !Contains(q, PlaneMarker)
    requires StemTail(tail, digits, TifUpperExt) && name == q + tail
    ensures !Contains(name, PlaneMarker)
    ensures LastIndexOf(name, TimeMarker16bit) == |q| - 2
    ensures LastIndexOf(name, [Underscore]) == |q| - 2
  {
    ConcatLacksPair(q, tail, Dash, 'p');
    assert forall k :: |q| <= k < |name| ==> name[k] == tail[k - |q|];
    LastIndexOfPairIs(name, Underscore, TimeChar, |q| - 2);
    LastIndexOfCharIs(name, Underscore, |q| - 2);
  }

  /** The markers of the `_t…​.TIF` grammar located in the last segment `name` of `f`, with the
      digits between them reading as `time`. */
  ghost predicate StackTimeReadable(f: string, name: string, t16: nat, ext: nat, digits: string, time: Int32) {
    && f != "" && LastIndexOf(f, ForwardSlash) != -1 && name == f[LastIndexOf(f, ForwardSlash)..]
    && !Contains(name, PlaneMarker)
    && LastIndexOf(name, TimeMarker16bit) == t16 && IndexOf(name, TifUpperExt) == ext
    && t16 + 2 <= ext <= |name| && name[t16 + 2..ext] == digits && ParseInt(digits) == Value(time)
  }

  /** The `_t…​.TIF` grammar of extractTimeFromImageFileName, once its markers are located. */
  lemma TimeFromStackSegment(f: string, name: string, t16: nat, ext: nat, digits: string, time: Int32)
    requires StackTimeReadable(f, name, t16, ext, digits, time)
    ensures TimeFromFileName(f) == Value(time)
  {
    var slash := LastIndexOf(f, ForwardSlash);
    assert f[slash..|f|] == f[slash..];
    assert SubstringFrom(f, slash) == Value(name);
    assert OccursAt(name, TimeMarker16bit, t16) && OccursAt(name, TifUpperExt, ext);
    assert TimeFromName(name) == StackNameTime(name);
    assert Substring(name, t16 + 2, ext) == Value(digits);
  }

  /** The last segment of a path that ends in `_t` ends in `_t` too. */
  lemma SegmentEndsWithStackMarker(prefix: string, slash: nat, q: string)
    requires slash == LastIndexOf(prefix, ForwardSlash) && EndsWith(prefix, TimeMarker16bit)
    requires q == prefix[slash..]
    ensures |q| >= 3 && q[|q| - 2] == Underscore && q[|q| - 1] == TimeChar
    ensures prefix[|prefix| - 1] == TimeChar
  {
    assert OccursAt(prefix, ForwardSlash, slash);
    assert prefix[slash..slash + 1][0] == prefix[slash];
    var e := prefix[|prefix| - 2..];
    assert e[0] == prefix[|prefix| - 2] && e[1] == prefix[|prefix| - 1];
  }

  /** The markers of the last segment of a stack name, as the `_t…​.TIF` grammar needs them. */
  lemma StackSegment(q: string, digits: string, tail: string, name: string, t16: nat, ext: nat)
    requires |q| >= 2 && q[|q| - 2] == Underscore && q[|q| - 1] == TimeChar
    requires !Contains(q, PlaneMarker) && !Contains(q, TifUpperExt)
    requires StemTail(tail, digits, TifUpperExt) && name == q + tail
    requires t16 == |q| - 2 && ext == |q| + |digits|
    ensures !Contains(name, PlaneMarker)
    ensures LastIndexOf(name, TimeMarker16bit) == t16 && IndexOf(name, TifUpperExt) == ext
    ensures t16 + 2 <= ext <= |name| && name[t16 + 2..ext] == digits
  {
    StackSegmentMarkers(q, digits, tail, name);
    ExtensionAfterStem(q, digits, tail, TifUpperExt, name);
  }

  /** A stack name, cut at its last `/`, with the markers of that segment. */
  lemma StackNameParts(prefix: string, time: Int32, slash: nat)
    returns (f: string, name: string, t16: nat, ext: nat, digits: string)
    requires slash == LastIndexOf(prefix, ForwardSlash) && EndsWith(prefix, TimeMarker16bit)
    requires !Contains(prefix[slash..], PlaneMarker) && !Contains(prefix[slash..], TifUpperExt)
    requires time >= 0
    ensures AppendTimeToSingle16BitTifPrefix(prefix, time) == Value(f)
    ensures StackTimeReadable(f, name, t16, ext, digits, time)
  {
    var q := prefix[slash..];
    SegmentEndsWithStackMarker(prefix, slash, q);
    var tail;
    tail, digits := BuiltStackName(prefix, time);
    f := prefix + tail;
    LastSlashKept(prefix, tail, slash);
    name := q + tail;
    t16, ext := |q| - 2, |q| + |digits|;
    StackSegment(q, digits, tail, name, t16, ext);
  }

  /** extractTimeFromImageFileName recovers the time, from 0 on, of a stack name built from a
      prefix that holds a `/` and ends in `_t`, whose last segment has no `-p` and no `.TIF`. */
  lemma TimeOfStackName(prefix: string, time: Int32, slash: nat)
    requires slash == LastIndexOf(prefix, ForwardSlash) && EndsWith(prefix, TimeMarker16bit)
    requires !Contains(prefix[slash..], PlaneMarker) && !Contains(prefix[slash..], TifUpperExt)
    requires time >= 0
    ensures AppendTimeToSingle16BitTifPrefix(prefix, time).Value?
    ensures TimeFromFileName(AppendTimeToSingle16BitTifPrefix(prefix, time).v) == Value(time)
  {
    var f, name, t16, ext, digits := StackNameParts(prefix, time, slash);
    TimeFromStackSegment(f, name, t16, ext, digits, time);
  }

  // ---------------------------------------------------------------------------
  // diSPIM names

  /** A diSPIM name is its prefix, the time's text and `.tif` when the prefix does not end
      in `t`. */
  lemma BuiltDiSpimName(prefix: string, time: Int32) returns (tail: string, digits: string)
    requires |prefix| >= 1 && prefix[|prefix| - 1] != TimeChar && time >= 0
    ensures AppendTimeToSingle16BitTifPrefix(prefix, time) == Value(prefix + tail)
    ensures StemTail(tail, digits, TifLowerExt) && ParseInt(digits) == Value(time)
  {
    tail, digits := TimeTextTail(time, TifLowerExt);
    assert prefix + IntToString(time) + TifLowerExt == prefix + tail;
  }

  /** A string of digits keeps all of its characters. */
  lemma {:induction false} DigitsOfDigits(s: string)
    requires AllDigits(s)
    ensures DigitsOf(s) == s
  {
    if s != "" {
      DigitsOfDigits(s[1..]);
    }
  }

  /** The text after a separator and before a stem tail: the tail starts with a digit, so
      neither time marker straddles the seam. */
  lemma SeparatorSeam(q: string, tail: string, digits: string, ext: string)
    requires |q| >= 1 && IsDelimiter(q[|q| - 1]) && StemTail(tail, digits, ext)
    ensures tail[0] == digits[0] && IsDigit(tail[0])
    ensures tail[0] != TimeChar && tail[0] != 'p'
  {
  }

  /** The last segment of a diSPIM name has no time marker, and its stem, cut before the
      first `.tif`, is the segment's text before the digits followed by the digits. */
  lemma DiSpimSegmentMarkers(q: string, digits: string, tail: string, name: string, e: nat)
    requires |q| >= 1 && IsDelimiter(q[|q| - 1])
    requires !Contains(q, TimeMarker8bit) && !Contains(q, TimeMarker16bit) && !Contains(q, TifLowerExt)
    requires StemTail(tail, digits, TifLowerExt) && name == q + tail && e == |q| + |digits|
    ensures !Contains(name, TimeMarker8bit) && !Contains(name, TimeMarker16bit)
    ensures Contains(name, TifLowerExt) && IndexOf(name, TifLowerExt) == e
    ensures name[..e] == q + digits
  {
    SeparatorSeam(q, tail, digits, TifLowerExt);
    ConcatLacksPair(q, tail, Dash, TimeChar);
    ConcatLacksPair(q, tail, Underscore, TimeChar);
    ExtensionAfterStem(q, digits, tail, TifLowerExt, name);
    assert name[..e] == q + tail[..|digits|];
  }

  /** The digits after the separator closing `q` read as the time. */
  lemma DiSpimStemTime(q: string, digits: string, stem: string, d: int, time: Int32)
    requires |q| >= 1 && d == |q| - 1 && IsDelimiter(q[d])
    requires digits != [] && AllDigits(digits) && stem == q + digits && ParseInt(digits) == Value(time)
    ensures LastDelimiterIndex(stem) == d && ParseInt(DigitsOf(stem[d + 1..])) == Value(time)
  {
    assert forall k :: |q| <= k < |stem| ==> stem[k] == digits[k - |q|];
    LastDelimiterIndexIs(stem, d);
    assert d + 1 == |q| && stem[|q|..] == digits;
    DigitsOfDigits(digits);
  }

  /** The diSPIM grammar finds the time in the last segment of a diSPIM name. */
  lemma DiSpimSegmentTime(q: string, digits: string, tail: string, name: string, time: Int32)
    requires |q| >= 1 && IsDelimiter(q[|q| - 1])
    requires !Contains(q, TimeMarker8bit) && !Contains(q, TimeMarker16bit) && !Contains(q, TifLowerExt)
    requires StemTail(tail, digits, TifLowerExt) && name == q + tail && ParseInt(digits) == Value(time)
    ensures TimeFromName(name) == Value(time)
  {
    var e := |q| + |digits|;
    DiSpimSegmentMarkers(q, digits, tail, name, e);
    var stem := name[..e];
    var d := |q| - 1;
    DiSpimStemTime(q, digits, stem, d, time);
    assert TimeFromName(name) == DiSpimNameTime(name);
  }

  /** extractTimeFromImageFileName recovers the time, from 0 on, of a diSPIM name built from a
      prefix that holds a `/` and ends in `_` or `-`, whose last segment has no time marker
      and no `.tif`. */
  lemma TimeOfDiSpimName(prefix: string, time: Int32, slash: nat)
    requires slash == LastIndexOf(prefix, ForwardSlash) && IsDelimiter(prefix[|prefix| - 1])
    requires !Contains(prefix[slash..], TimeMarker8bit) && !Contains(prefix[slash..], TimeMarker16bit)
    requires !Contains(prefix[slash..], TifLowerExt)
    requires time >= 0
    ensures AppendTimeToSingle16BitTifPrefix(prefix, time).Value?
    ensures TimeFromFileName(AppendTimeToSingle16BitTifPrefix(prefix, time).v) == Value(time)
  {
    var f, q, tail, digits := DiSpimLastSegment(prefix, time, slash);
    DiSpimSegmentTime(q, digits, tail, q + tail, time);
    assert TimeFromFileName(f) == TimeFromName(q + tail);
  }

  // ---------------------------------------------------------------------------
  // isSliceImage on built names

  /** isSliceImage on a name whose last segment has a period and a last dash with a character
      after it: a slice exactly when that character is `p` and the period is at most five
      characters on. */
  lemma SliceVerdictAtDash(f: string, name: string, period: int, dash: nat)
    requires f != "" && name == SegmentFromLastDelimiter(f) && name != ""
    requires LastIndexOf(name, Period) == period && period != -1
    requires LastIndexOf(name, [Dash]) == dash && dash + 2 <= |name|
    ensures IsSliceImage(f) == Value(name[dash + 1] == 'p' && period - dash <= 5)
  {
    var m := name[dash..dash + 2];
    assert Substring(name, dash, dash + 2) == Value(m);
    assert name[dash..dash + 1] == [Dash];
    assert m[0] == name[dash] && m[1] == name[dash + 1];
  }

  /** The character after the last dash of `name`, or, when it has no dash, after its last
      underscore, exists and is not `p`. */
  ghost predicate NoPlaneAtLastDelimiter(name: string) {
    && (LastIndexOf(name, [Dash]) != -1 ==>
          LastIndexOf(name, [Dash]) + 2 <= |name| && name[LastIndexOf(name, [Dash]) + 1] != 'p')
    && (LastIndexOf(name, [Dash]) == -1 && LastIndexOf(name, [Underscore]) != -1 ==>
          LastIndexOf(name, [Underscore]) + 2 <= |name| && name[LastIndexOf(name, [Underscore]) + 1] != 'p')
  }

  /** isSliceImage rejects a name whose last segment has no plane marker where it looks. */
  lemma NotSliceImage(f: string, name: string)
    requires name == SegmentFromLastDelimiter(f) && NoPlaneAtLastDelimiter(name)
    ensures IsSliceImage(f) == Value(false)
  {
    var dash := LastIndexOf(name, [Dash]);
    var underscore := LastIndexOf(name, [Underscore]);
    if dash != -1 {
      var m := name[dash..dash + 2];
      assert Substring(name, dash, dash + 2) == Value(m);
      assert m[1] == name[dash + 1];
    } else if underscore != -1 {
      var m := name[underscore..underscore + 2];
      assert Substring(name, underscore, underscore + 2) == Value(m);
      assert m[1] == name[underscore + 1];
    }
  }

  /** isSliceImage rejects a name with neither `/` nor BACKSLASH. */
  lemma NotSliceWithoutDelimiter(f: string)
    requires '/' !in f && '"' !in f
    ensures IsSliceImage(f) == Value(false)
  {
    LastIndexOfCharAbsent(f, '/');
    LastIndexOfCharAbsent(f, '"');
  }

  /** The last period, the last dash and the plane marker of the last segment of a slice name. */
  lemma SliceSegmentMarks(q: string, tail: string, timeToken: string, planeToken: string, name: string, period: nat, dash: nat)
    requires SliceTail(tail, timeToken, planeToken) && name == q + tail
    requires period == |q| + |tail| - 4 && dash == |q| + |timeToken|
    ensures LastIndexOf(name, Period) == period && LastIndexOf(name, [Dash]) == dash
    ensures dash + 2 <= |name| && name[dash + 1] == 'p' && period - dash == |planeToken| + 2
  {
    assert forall k :: |q| <= k < |name| ==> name[k] == tail[k - |q|];
    LastIndexOfCharIs(name, '.', period);
    LastIndexOfCharIs(name, Dash, dash);
  }

  /** isSliceImage accepts a built slice name exactly when its plane is at most 999: a wider
      plane token puts the period more than five characters after the plane marker. */
  lemma SliceVerdictOfSliceName(prefix: string, time: Int32, plane: Int32, slash: nat)
    requires slash == LastIndexOf(prefix, ForwardSlash)
    ensures IsSliceImage(AppendTimeAndPlaneTo8BitTifPrefix(prefix, time, plane)) == Value(plane <= 999)
  {
    var tail, timeToken, planeToken := BuiltSliceName(prefix, time, plane);
    var f := prefix + tail;
    LastSlashKept(prefix, tail, slash);
    var q := prefix[slash..];
    var name := q + tail;
    var period, dash := |q| + |tail| - 4, |q| + |timeToken|;
    SliceSegmentMarks(q, tail, timeToken, planeToken, name, period, dash);
    SliceVerdictAtDash(f, name, period, dash);
  }

  /** A dash in a name without `-p` is not followed by `p`. */
  lemma DashNotPlaneMarker(name: string, d: nat)
    requires !Contains(name, PlaneMarker) && d + 2 <= |name| && name[d] == Dash
    ensures name[d + 1] != 'p'
  {
    var w := name[d..d + 2];
    assert w[0] == name[d] && w[1] == name[d + 1];
    assert !OccursAt(name, PlaneMarker, d);
  }

  /** The last segment of a stack name has no plane marker where isSliceImage looks. */
  lemma StackSegmentNotSlice(q: string, digits: string, tail: string, name: string)
    requires |q| >= 2 && q[|q| - 2] == Underscore && q[|q| - 1] == TimeChar
    requires !Contains(q, PlaneMarker)
    requires StemTail(tail, digits, TifUpperExt) && name == q + tail
    ensures NoPlaneAtLastDelimiter(name)
  {
    StackSegmentMarkers(q, digits, tail, name);
    assert forall k :: |q| <= k < |name| ==> name[k] == tail[k - |q|];
    CharOccurrences(name, Dash);
    var d := LastIndexOf(name, [Dash]);
    if d != -1 {
      assert d < |q| - 2;
      DashNotPlaneMarker(name, d);
    }
  }

  /** isSliceImage rejects a stack name built from a prefix that holds a `/` and ends in `_t`,
      whose last segment has no `-p`. */
  lemma NotSliceOfStackName(prefix: string, time: Int32, slash: nat)
    requires slash == LastIndexOf(prefix, ForwardSlash) && EndsWith(prefix, TimeMarker16bit)
    requires !Contains(prefix[slash..], PlaneMarker)
    requires time >= 0
    ensures AppendTimeToSingle16BitTifPrefix(prefix, time).Value?
    ensures IsSliceImage(AppendTimeToSingle16BitTifPrefix(prefix, time).v) == Value(false)
  {
    var q := prefix[slash..];
    SegmentEndsWithStackMarker(prefix, slash, q);
    var tail, digits := BuiltStackName(prefix, time);
    LastSlashKept(prefix, tail, slash);
    StackSegmentNotSlice(q, digits, tail, q + tail);
    NotSliceImage(prefix + tail, q + tail);
  }

  /** The last segment of a diSPIM name has no plane marker where isSliceImage looks. */
  lemma DiSpimSegmentNotSlice(q: string, digits: string, tail: string, name: string)
    requires |q| >= 1 && IsDelimiter(q[|q| - 1]) && !Contains(q, PlaneMarker)
    requires StemTail(tail, digits, TifLowerExt) && name == q + tail
    ensures NoPlaneAtLastDelimiter(name)
  {
    SeparatorSeam(q, tail, digits, TifLowerExt);
    ConcatLacksPair(q, tail, Dash, 'p');
    LastCharKept(q, tail, Dash);
    LastCharKept(q, tail, Underscore);
    var d := LastIndexOf(q, [Dash]);
    if d != -1 {
      assert name[d..d + 1] == q[d..d + 1] == [Dash];
      DashNotPlaneMarker(name, d);
    } else {
      DiSpimUnderscoreSeam(q, tail, digits, name);
    }
  }

  /** With no dash in its last segment, a diSPIM name's last underscore closes its prefix and
      is followed by a digit. */
  lemma DiSpimUnderscoreSeam(q: string, tail: string, digits: string, name: string)
    requires |q| >= 1 && IsDelimiter(q[|q| - 1]) && LastIndexOf(q, [Dash]) == -1
    requires StemTail(tail, digits, TifLowerExt) && name == q + tail
    ensures LastIndexOf(q, [Underscore]) == |q| - 1 && name[|q|] == digits[0] && digits[0] != 'p'
  {
    assert q[|q| - 1..][0] == q[|q| - 1];
    assert !OccursAt(q, [Dash], |q| - 1);
    LastIndexOfCharIs(q, Underscore, |q| - 1);
    assert name[|q|] == tail[0] == digits[0];
  }

  /** The last segment of a diSPIM name, cut at its last `/`. */
  lemma DiSpimLastSegment(prefix: string, time: Int32, slash: nat)
    returns (f: string, q: string, tail: string, digits: string)
    requires slash == LastIndexOf(prefix, ForwardSlash) && IsDelimiter(prefix[|prefix| - 1])
    requires time >= 0
    ensures AppendTimeToSingle16BitTifPrefix(prefix, time) == Value(f) && f == prefix + tail
    ensures q == prefix[slash..] && |q| >= 1 && q[|q| - 1] == prefix[|prefix| - 1]
    ensures StemTail(tail, digits, TifLowerExt) && ParseInt(digits) == Value(time)
    ensures SegmentFromLastDelimiter(f) == q + tail && LastIndexOf(f, ForwardSlash) == slash
    ensures f != "" && SubstringFrom(f, LastIndexOf(f, ForwardSlash)) == Value(q + tail)
  {
    tail, digits := BuiltDiSpimName(prefix, time);
    f := prefix + tail;
    q := prefix[slash..];
    SegmentPastLastSlash(prefix, tail, slash);
  }

  /** Text without `/` after a prefix keeps the prefix's last `/` and extends its last
      segment. */
  lemma SegmentPastLastSlash(prefix: string, tail: string, slash: nat)
    requires slash == LastIndexOf(prefix, ForwardSlash)
    requires forall k :: 0 <= k < |tail| ==> tail[k] != '/'
    ensures |prefix[slash..]| >= 1 && prefix[slash..][|prefix[slash..]| - 1] == prefix[|prefix| - 1]
    ensures SegmentFromLastDelimiter(prefix + tail) == prefix[slash..] + tail
    ensures LastIndexOf(prefix + tail, ForwardSlash) == slash
    ensures prefix + tail != "" && SubstringFrom(prefix + tail, slash) == Value(prefix[slash..] + tail)
  {
    LastSlashKept(prefix, tail, slash);
    CutAtLastSlash(prefix + tail, slash);
  }

  /** Cutting a name at its last `/` gives the segment isSliceImage looks at. */
  lemma CutAtLastSlash(f: string, slash: nat)
    requires slash == LastIndexOf(f, ForwardSlash)
    ensures f != "" && SegmentFromLastDelimiter(f) == f[slash..]
    ensures SubstringFrom(f, slash) == Value(f[slash..])
  {
    assert f[slash..|f|] == f[slash..];
  }

  /** isSliceImage rejects a diSPIM name built from a prefix that holds a `/` and ends in `_`
      or `-`, whose last segment has no `-p`. */
  lemma NotSliceOfDiSpimName(prefix: string, time: Int32, slash: nat)
    requires slash == LastIndexOf(prefix, ForwardSlash) && IsDelimiter(prefix[|prefix| - 1])
    requires !Contains(prefix[slash..], PlaneMarker)
    requires time >= 0
    ensures AppendTimeToSingle16BitTifPrefix(prefix, time).Value?
    ensures IsSliceImage(AppendTimeToSingle16BitTifPrefix(prefix, time).v) == Value(false)
  {
    var f, q, tail, digits := DiSpimLastSegment(prefix, time, slash);
    DiSpimSegmentNotSlice(q, digits, tail, q + tail);
    NotSliceImage(f, q + tail);
  }

  // ---------------------------------------------------------------------------
  // getImagePrefix on built names

  /** The `-t` closing the prefix of a slice name is the name's last `-t`. */
  lemma SliceTimeMarkerLast(prefix: string, tail: string, timeToken: string, planeToken: string, t8: nat)
    requires EndsWith(prefix, TimeMarker8bit) && SliceTail(tail, timeToken, planeToken)
    requires t8 + 2 == |prefix|
    ensures LastIndexOf(prefix + tail, TimeMarker8bit) == t8
  {
    var f := prefix + tail;
    var e := prefix[t8..];
    assert e == TimeMarker8bit;
    assert e[0] == prefix[t8] && e[1] == prefix[t8 + 1];
    assert forall k :: |prefix| <= k < |f| ==> f[k] == tail[k - |prefix|];
    LastIndexOfPairIs(f, Dash, TimeChar, t8);
  }

  /** getImagePrefix gives back the prefix of a slice name built from a prefix that holds a
      `/` and ends in `-t`, for any time and every plane up to 999. */
  lemma PrefixOfSliceName(prefix: string, time: Int32, plane: Int32, slash: nat)
    requires slash == LastIndexOf(prefix, ForwardSlash) && EndsWith(prefix, TimeMarker8bit)
    requires plane <= 999
    ensures ImagePrefix(AppendTimeAndPlaneTo8BitTifPrefix(prefix, time, plane)) == Value(prefix)
  {
    SliceVerdictOfSliceName(prefix, time, plane, slash);
    var tail, timeToken, planeToken := BuiltSliceName(prefix, time, plane);
    var t8 := |prefix| - 2;
    SliceTimeMarkerLast(prefix, tail, timeToken, planeToken, t8);
    assert t8 + |TimeMarker8bit| == |prefix|;
    assert (prefix + tail)[..|prefix|] == prefix;
  }

  /** The `_t` closing the prefix of a stack name is the name's last `_t`, so it has one. */
  lemma StackTimeMarkerLast(prefix: string, tail: string, digits: string, t16: nat)
    requires EndsWith(prefix, TimeMarker16bit) && StemTail(tail, digits, TifUpperExt)
    requires t16 + 2 == |prefix|
    ensures LastIndexOf(prefix + tail, TimeMarker16bit) == t16
    ensures IndexOf(prefix + tail, TimeMarker16bit) != -1
  {
    var f := prefix + tail;
    var e := prefix[t16..];
    assert e == TimeMarker16bit;
    assert e[0] == prefix[t16] && e[1] == prefix[t16 + 1];
    assert forall k :: |prefix| <= k < |f| ==> f[k] == tail[k - |prefix|];
    LastIndexOfPairIs(f, Underscore, TimeChar, t16);
    assert OccursAt(f, TimeMarker16bit, t16);
  }

  /** getImagePrefix gives back the prefix of a stack name built from a prefix that holds a
      `/` and ends in `_t`, whose last segment has no `-p`. */
  lemma PrefixOfStackName(prefix: string, time: Int32, slash: nat)
    requires slash == LastIndexOf(prefix, ForwardSlash) && EndsWith(prefix, TimeMarker16bit)
    requires !Contains(prefix[slash..], PlaneMarker)
    requires time >= 0
    ensures AppendTimeToSingle16BitTifPrefix(prefix, time).Value?
    ensures ImagePrefix(AppendTimeToSingle16BitTifPrefix(prefix, time).v) == Value(prefix)
  {
    NotSliceOfStackName(prefix, time, slash);
    SegmentEndsWithStackMarker(prefix, slash, prefix[slash..]);
    var tail, digits := BuiltStackName(prefix, time);
    var t16 := |prefix| - 2;
    StackTimeMarkerLast(prefix, tail, digits, t16);
    assert t16 + |TimeMarker16bit| == |prefix|;
    assert (prefix + tail)[..|prefix|] == prefix;
  }

  /** Without any `/` or BACKSLASH in the prefix the stack name is not a slice either, so
      getImagePrefix again gives back a prefix that ends in `_t`. */
  lemma PrefixOfUndelimitedStackName(prefix: string, time: Int32)
    requires '/' !in prefix && '"' !in prefix && EndsWith(prefix, TimeMarker16bit)
    requires time >= 0
    ensures AppendTimeToSingle16BitTifPrefix(prefix, time).Value?
    ensures ImagePrefix(AppendTimeToSingle16BitTifPrefix(prefix, time).v) == Value(prefix)
  {
    var tail, digits := BuiltStackName(prefix, time);
    assert '/' !in prefix + tail && '"' !in prefix + tail by {
      forall k | 0 <= k < |prefix + tail|
        ensures (prefix + tail)[k] != '/' && (prefix + tail)[k] != '"'
      {
        if k >= |prefix| {
          assert (prefix + tail)[k] == tail[k - |prefix|];
        } else {
          assert (prefix + tail)[k] == prefix[k];
        }
      }
    }
    NotSliceWithoutDelimiter(prefix + tail);
    var t16 := |prefix| - 2;
    StackTimeMarkerLast(prefix, tail, digits, t16);
    assert (prefix + tail)[..|prefix|] == prefix;
  }

  /** The separator diSPIM prefix extraction picks in the last segment of a diSPIM name is the
      one closing its prefix, given that a `-` prefix has no `_` in that segment. */
  lemma DiSpimSegmentSeparator(q: string, tail: string, digits: string, sep: char)
    requires |q| >= 1 && q[|q| - 1] == sep && IsDelimiter(sep)
    requires sep == Dash ==> Underscore !in q
    requires StemTail(tail, digits, TifLowerExt)
    ensures DiSpimSeparator(q + tail) == Some(sep)
  {
    var name := q + tail;
    assert forall k :: |q| <= k < |name| ==> name[k] == tail[k - |q|];
    assert forall k :: 0 <= k < |q| ==> name[k] == q[k];
    CharOccurrences(name, Underscore);
    CharOccurrences(name, Dash);
    assert OccursAt(name, [sep], |q| - 1);
    if sep == Dash {
      LastIndexOfCharAbsent(name, Underscore);
    }
  }

  /** In a diSPIM name the separator closing its prefix is the last of its kind. */
  lemma DiSpimSeparatorStart(prefix: string, tail: string, digits: string, f: string, start: nat)
    requires |prefix| >= 1 && IsDelimiter(prefix[|prefix| - 1]) && StemTail(tail, digits, TifLowerExt)
    requires f == prefix + tail && start == |prefix|
    ensures LastIndexOf(f, [prefix[|prefix| - 1]]) + 1 == start
  {
    assert forall k :: |prefix| <= k < |f| ==> f[k] == tail[k - |prefix|];
    LastIndexOfCharIs(f, prefix[|prefix| - 1], |prefix| - 1);
  }

  /** In a diSPIM name whose prefix has no `.tif`, the digits run from the end of the prefix
      to the first `.tif`. */
  lemma DiSpimTimeText(prefix: string, tail: string, digits: string, f: string, start: nat)
    requires |prefix| >= 1 && IsDelimiter(prefix[|prefix| - 1]) && !Contains(prefix, TifLowerExt)
    requires StemTail(tail, digits, TifLowerExt) && f == prefix + tail && start == |prefix|
    ensures Substring(f, start, IndexOf(f, TifLowerExt)) == Value(digits) && f[..start] == prefix
  {
    ExtensionAfterStem(prefix, digits, tail, TifLowerExt, f);
  }

  /** diSPIM prefix extraction on a name built from a prefix ending in its separator, with no
      `.tif` in the prefix. */
  lemma DiSpimPrefixOfName(prefix: string, q: string, tail: string, digits: string, f: string, slash: nat)
    requires slash == LastIndexOf(prefix, ForwardSlash) && q == prefix[slash..]
    requires |q| >= 1 && q[|q| - 1] == prefix[|prefix| - 1] && IsDelimiter(prefix[|prefix| - 1])
    requires prefix[|prefix| - 1] == Dash ==> Underscore !in q
    requires !Contains(prefix, TifLowerExt)
    requires StemTail(tail, digits, TifLowerExt) && f == prefix + tail
    requires SubstringFrom(f, LastIndexOf(f, ForwardSlash)) == Value(q + tail)
    ensures DiSpimPrefix(f) == Value(prefix)
  {
    var sep := prefix[|prefix| - 1];
    DiSpimSegmentSeparator(q, tail, digits, sep);
    var start := |prefix|;
    DiSpimSeparatorStart(prefix, tail, digits, f, start);
    DiSpimTimeText(prefix, tail, digits, f, start);
  }

  /** A diSPIM name has no `_t` when its prefix has none. */
  lemma DiSpimNoStackMarker(prefix: string, tail: string, digits: string)
    requires |prefix| >= 1 && IsDelimiter(prefix[|prefix| - 1]) && !Contains(prefix, TimeMarker16bit)
    requires StemTail(tail, digits, TifLowerExt)
    ensures IndexOf(prefix + tail, TimeMarker16bit) == -1
  {
    SeparatorSeam(prefix, tail, digits, TifLowerExt);
    ConcatLacksPair(prefix, tail, Underscore, TimeChar);
  }

  /** getImagePrefix gives back the prefix of a diSPIM name built from a prefix that holds a
      `/` and ends in `_`, or in `-` with no `_` in its last segment, whose last segment has no
      `-p` and which has no `_t` and no `.tif` anywhere. */
  lemma PrefixOfDiSpimName(prefix: string, time: Int32, slash: nat)
    requires slash == LastIndexOf(prefix, ForwardSlash) && IsDelimiter(prefix[|prefix| - 1])
    requires prefix[|prefix| - 1] == Dash ==> Underscore !in prefix[slash..]
    requires !Contains(prefix[slash..], PlaneMarker)
    requires !Contains(prefix, TimeMarker16bit) && !Contains(prefix, TifLowerExt)
    requires time >= 0
    ensures AppendTimeToSingle16BitTifPrefix(prefix, time).Value?
    ensures ImagePrefix(AppendTimeToSingle16BitTifPrefix(prefix, time).v) == Value(prefix)
  {
    NotSliceOfDiSpimName(prefix, time, slash);
    var f, q, tail, digits := DiSpimLastSegment(prefix, time, slash);
    DiSpimNoStackMarker(prefix, tail, digits);
    DiSpimPrefixOfName(prefix, q, tail, digits, f, slash);
  }
}
