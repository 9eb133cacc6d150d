/** PHP's `nl2br($s)` with its default `$use_xhtml = true`: before every line
    break it inserts the marker "<br />". A line break is one of the two-byte
    pairs "\r\n" and "\n\r", or a lone "\r" or "\n"; a pair is copied through
    as one break and gets one marker. */
module Nl2br {
  import opened Bytes

  /** "<br />" */
  const Marker: Bytes := [60, 98, 114, 32, 47, 62]

  predicate IsBreak(b: byte)
  {
    b == CR || b == LF
  }

  /** The two bytes form one line break ("\r\n" or "\n\r"). */
  predicate IsPair(a: byte, b: byte)
  {
    (a == CR && b == LF) || (a == LF && b == CR)
  }

  predicate NoBreak(s: Bytes)
  {
    forall i :: 0 <= i < |s| ==> !IsBreak(s[i])
  }

  /** The conversion, one input break (one or two bytes) at a time. */
  function Nl2Br(s: Bytes): Bytes
    decreases |s|
  {
    if |s| == 0 then []
    else if IsBreak(s[0]) then
      if |s| >= 2 && IsPair(s[0], s[1]) then Marker + s[..2] + Nl2Br(s[2..])
      else Marker + [s[0]] + Nl2Br(s[1..])
    else [s[0]] + Nl2Br(s[1..])
  }

  /** The number of line breaks, a pair counting once: the count PHP takes in
      its first pass to size the result. */
  function BreakCount(s: Bytes): nat
    decreases |s|
  {
    if |s| == 0 then 0
    else if IsBreak(s[0]) then
      if |s| >= 2 && IsPair(s[0], s[1]) then 1 + BreakCount(s[2..])
      else 1 + BreakCount(s[1..])
    else BreakCount(s[1..])
  }

  /** Deletes every "<br />" that is immediately followed by "\r" or "\n",
      scanning from the left. */
  function StripMarkers(t: Bytes): Bytes
    decreases |t|
  {
    if |t| == 0 then []
    else if |t| > |Marker| && t[..|Marker|] == Marker && IsBreak(t[|Marker|]) then
      [t[|Marker|]] + StripMarkers(t[|Marker| + 1..])
    else [t[0]] + StripMarkers(t[1..])
  }

  /** The result is exactly one marker longer per line break: the size PHP
      allocates. */
  lemma {:induction false} Nl2BrLength(s: Bytes)
    ensures |Nl2Br(s)| == |s| + |Marker| * BreakCount(s)
    decreases |s|
  {
    if |s| == 0 {
    } else if IsBreak(s[0]) {
      if |s| >= 2 && IsPair(s[0], s[1]) {
        Nl2BrLength(s[2..]);
      } else {
        Nl2BrLength(s[1..]);
      }
    } else {
      Nl2BrLength(s[1..]);
    }
  }

  /** A string has no line break exactly when it has no break byte. */
  lemma {:induction false} BreakCountZero(s: Bytes)
    ensures BreakCount(s) == 0 <==> NoBreak(s)
    decreases |s|
  {
    if |s| == 0 {
    } else if IsBreak(s[0]) {
      assert !NoBreak(s);
    } else {
      BreakCountZero(s[1..]);
      assert NoBreak(s) <==> NoBreak(s[1..]) by {
        assert forall i :: 1 <= i < |s| ==> s[i] == s[1..][i - 1];
      }
    }
  }

  /** nl2br leaves a string unchanged exactly when it holds no "\r" or "\n". */
  lemma Nl2BrFixedPoint(s: Bytes)
    ensures Nl2Br(s) == s <==> NoBreak(s)
  {
    Nl2BrLength(s);
    BreakCountZero(s);
    if NoBreak(s) {
      NoBreakUnchanged(s);
    }
  }

  lemma {:induction false} NoBreakUnchanged(s: Bytes)
    requires NoBreak(s)
    ensures Nl2Br(s) == s
    decreases |s|
  {
    if |s| > 0 {
      assert !IsBreak(s[0]);
      assert NoBreak(s[1..]) by {
        assert forall i :: 0 <= i < |s| - 1 ==> s[1..][i] == s[i + 1];
      }
      NoBreakUnchanged(s[1..]);
    }
  }

  /** A result never has a break byte within its first |Marker| bytes: a
      break in the input is preceded by a whole marker in the result. */
  lemma {:induction false} NoEarlyBreak(s: Bytes)
    ensures forall k :: 0 <= k < |Marker| && k < |Nl2Br(s)| ==> !IsBreak(Nl2Br(s)[k])
    decreases |s|
  {
    if |s| == 0 {
    } else if IsBreak(s[0]) {
      var rest := if |s| >= 2 && IsPair(s[0], s[1]) then s[..2] + Nl2Br(s[2..]) else [s[0]] + Nl2Br(s[1..]);
      assert Nl2Br(s) == Marker + rest;
      assert Nl2Br(s)[..|Marker|] == Marker;
    } else {
      var t := Nl2Br(s[1..]);
      NoEarlyBreak(s[1..]);
      assert Nl2Br(s) == [s[0]] + t;
      forall k | 1 <= k < |Marker| && k < |Nl2Br(s)|
        ensures !IsBreak(Nl2Br(s)[k])
      {
        assert Nl2Br(s)[k] == t[k - 1];
      }
    }
  }

  /** Deleting the inserted markers recovers the input exactly. */
  lemma {:induction false} StripNl2Br(s: Bytes)
    ensures StripMarkers(Nl2Br(s)) == s
    decreases |s|
  {
    if |s| == 0 {
    } else if IsBreak(s[0]) {
      if |s| >= 2 && IsPair(s[0], s[1]) {
        var tail := Nl2Br(s[2..]);
        var t := Marker + s[..2] + tail;
        assert Nl2Br(s) == t;
        assert t[..|Marker|] == Marker && t[|Marker|] == s[0];
        assert t[|Marker| + 1..] == [s[1]] + tail;
        var u := [s[1]] + tail;
        assert u[0] != Marker[0];
        assert StripMarkers(u) == [s[1]] + StripMarkers(u[1..]);
        assert u[1..] == tail;
        StripNl2Br(s[2..]);
        assert s == [s[0]] + [s[1]] + s[2..];
      } else {
        var tail := Nl2Br(s[1..]);
        var t := Marker + [s[0]] + tail;
        assert Nl2Br(s) == t;
        assert t[..|Marker|] == Marker && t[|Marker|] == s[0];
        assert t[|Marker| + 1..] == tail;
        StripNl2Br(s[1..]);
        assert s == [s[0]] + s[1..];
      }
    } else {
      var tail := Nl2Br(s[1..]);
      var t := [s[0]] + tail;
      assert Nl2Br(s) == t;
      NoEarlyBreak(s[1..]);
      if |t| > |Marker| {
        assert t[|Marker|] == tail[|Marker| - 1];
        assert !IsBreak(t[|Marker|]);
      }
      assert t[1..] == tail;
      StripNl2Br(s[1..]);
      assert s == [s[0]] + s[1..];
    }
  }

  lemma {:induction false} StripNoBreak(t: Bytes)
    requires NoBreak(t)
    ensures StripMarkers(t) == t
    decreases |t|
  {
    if |t| > 0 {
      assert NoBreak(t[1..]) by {
        assert forall i :: 0 <= i < |t| - 1 ==> t[1..][i] == t[i + 1];
      }
      StripNoBreak(t[1..]);
      if |t| > |Marker| {
        assert !IsBreak(t[|Marker|]);
      }
    }
  }

  /** nl2br is not idempotent: converting text that holds a line break a second
      time inserts further markers. */
  lemma Nl2BrNotIdempotent(s: Bytes)
    requires !NoBreak(s)
    ensures Nl2Br(Nl2Br(s)) != Nl2Br(s)
  {
    var t := Nl2Br(s);
    StripNl2Br(s);
    if NoBreak(t) {
      StripNoBreak(t);
      assert false;
    }
    Nl2BrFixedPoint(t);
  }

  /** The conversion works run by run: text can be converted in pieces, as
      long as no piece starts with a break byte that could complete a pair. */
  lemma {:induction false} Nl2BrAppend(a: Bytes, b: Bytes)
    requires b == [] || !IsBreak(b[0])
    ensures Nl2Br(a + b) == Nl2Br(a) + Nl2Br(b)
    decreases |a|
  {
    if |a| == 0 {
      assert a + b == b;
    } else if IsBreak(a[0]) && |a| >= 2 && IsPair(a[0], a[1]) {
      assert (a + b)[..2] == a[..2] && (a + b)[2..] == a[2..] + b;
      Nl2BrAppend(a[2..], b);
    } else {
      assert (a + b)[0] == a[0] && (a + b)[1..] == a[1..] + b;
      if IsBreak(a[0]) && |a| == 1 && |b| > 0 {
        assert (a + b)[1] == b[0];
      } else if IsBreak(a[0]) && |a| >= 2 {
        assert (a + b)[1] == a[1];
      }
      Nl2BrAppend(a[1..], b);
    }
  }
}
