/** What the three stream primitives of the driver do to the input queue:
    the marker search (`_findLabel`), the field extraction (`_fetchField`) and
    the drain (`_flushSerial`), as functions of the events still to come. */
module Scanner {
  import opened Transport

  /** Whether the marker was seen, and what is left to read afterwards. */
  datatype Search = Search(found: bool, rest: seq<Event>)

  /** The search loop, with `i` marker characters matched so far. A byte equal
      to the next marker character advances the cursor, and the last one ends
      the search; any other byte sends the cursor back to 0 without being
      compared with the marker's first character again. */
  function ScanFrom(input: seq<Event>, marker: string, i: nat): (r: Search)
    requires i < |marker|
    ensures |r.rest| < |input| || (input == [] && r.rest == [])
    ensures r.found ==> |input| - |r.rest| >= |marker| - i
    decreases |input|
  {
    match Head(input)
    case Gap => Search(false, Tail(input))
    case Byte(c) =>
      if marker[i] == c then
        if i < |marker| - 1 then ScanFrom(input[1..], marker, i + 1) else Search(true, input[1..])
      else ScanFrom(input[1..], marker, 0)
  }

  /** `_findLabel`: wait for the first byte, then search from cursor 0. */
  function SearchLabel(input: seq<Event>, marker: string): (r: Search)
    requires marker != []
    ensures |r.rest| < |input| || (input == [] && r.rest == [])
    ensures r.found ==> |input| - |r.rest| >= |marker|
  {
    if Head(input).Gap? then Search(false, Tail(input)) else ScanFrom(input, marker, 0)
  }

  /** What a search has taken off the queue. */
  function Taken(input: seq<Event>, rest: seq<Event>): nat
  {
    if |rest| <= |input| then |input| - |rest| else 0
  }

  predicate ByteRun(input: seq<Event>, n: int)
    requires n <= |input|
  {
    forall j :: 0 <= j < n ==> input[j].Byte?
  }

  /** A search takes a prefix of the queue made of bytes, except for a
      final pause when it gives up, or the whole queue when it runs dry. */
  lemma {:induction false} ScanTakes(input: seq<Event>, marker: string, i: nat)
    requires i < |marker|
    ensures var s := ScanFrom(input, marker, i); var k := Taken(input, s.rest);
      && s.rest == input[k..]
      && ByteRun(input, k - 1)
      && (s.found ==> k >= 1 && input[k - 1].Byte?)
      && (!s.found ==> (k >= 1 && input[k - 1].Gap?) || (k == |input| && ByteRun(input, k)))
    decreases |input|
  {
    match Head(input)
    case Gap =>
    case Byte(c) =>
      var tail := input[1..];
      var s := ScanFrom(input, marker, i);
      var j := if marker[i] == c && i < |marker| - 1 then i + 1 else 0;
      if marker[i] != c || i < |marker| - 1 {
        ScanTakes(tail, marker, j);
        assert s == ScanFrom(tail, marker, j);
        var k' := Taken(tail, s.rest);
        assert Taken(input, s.rest) == k' + 1;
        assert forall m :: 1 <= m < k' + 1 ==> input[m] == tail[m - 1];
      }
  }

  /** The first `k` events of the queue end with the marker: they are the
      rest of it from `i` on, or they finish with the whole of it. */
  predicate EndsWithMarker(input: seq<Event>, marker: string, i: nat, k: int)
    requires i < |marker|
  {
    0 <= k <= |input|
    && ((k == |marker| - i && input[..k] == Bytes(marker[i..]))
        || (k >= |marker| && input[k - |marker|..k] == Bytes(marker)))
  }

  /** On success the bytes taken end with the marker: the rest of it when
      the search began with part of the marker matched and never lost the
      match, the whole marker otherwise. */
  lemma {:induction false} ScanEndsWithMarker(input: seq<Event>, marker: string, i: nat)
    requires i < |marker|
    ensures var s := ScanFrom(input, marker, i);
      s.found ==> EndsWithMarker(input, marker, i, |input| - |s.rest|)
    decreases |input|, 1
  {
    match Head(input)
    case Gap =>
    case Byte(c) =>
      if marker[i] == c && i < |marker| - 1 {
        EndsAfterAdvance(input, marker, i);
      } else if marker[i] == c {
        assert input[..1] == [Byte(marker[i])] == Bytes(marker[i..]);
      } else {
        EndsAfterRestart(input, marker, i);
      }
  }

  /** `ScanEndsWithMarker` when the next byte advances the cursor. */
  lemma {:induction false} EndsAfterAdvance(input: seq<Event>, marker: string, i: nat)
    requires i < |marker| - 1 && |input| > 0 && input[0] == Byte(marker[i])
    ensures var s := ScanFrom(input, marker, i);
      s.found ==> EndsWithMarker(input, marker, i, |input| - |s.rest|)
    decreases |input|, 0
  {
    var tail := input[1..];
    var s := ScanFrom(input, marker, i);
    ScanEndsWithMarker(tail, marker, i + 1);
    assert s == ScanFrom(tail, marker, i + 1);
    if s.found {
      Shifts(input, marker, i, |tail| - |s.rest|);
    }
  }

  /** `ScanEndsWithMarker` when the next byte sends the cursor back to 0. */
  lemma {:induction false} EndsAfterRestart(input: seq<Event>, marker: string, i: nat)
    requires i < |marker| && |input| > 0 && input[0].Byte? && input[0].c != marker[i]
    ensures var s := ScanFrom(input, marker, i);
      s.found ==> EndsWithMarker(input, marker, i, |input| - |s.rest|)
    decreases |input|, 0
  {
    var tail := input[1..];
    var s := ScanFrom(input, marker, i);
    ScanEndsWithMarker(tail, marker, 0);
    assert s == ScanFrom(tail, marker, 0);
    if s.found {
      var k := |tail| - |s.rest|;
      assert marker[0..] == marker;
      WholeShifts(input, marker, k);
    }
  }

  /** An advancing byte in front of a match of the marker from `i + 1` on
      gives a match from `i` on. */
  lemma Shifts(input: seq<Event>, marker: string, i: nat, k: nat)
    requires i < |marker| - 1 && |input| > 0 && input[0] == Byte(marker[i])
    requires EndsWithMarker(input[1..], marker, i + 1, k)
    ensures EndsWithMarker(input, marker, i, k + 1)
  {
    if k == |marker| - i - 1 && input[1..][..k] == Bytes(marker[i + 1..]) {
      PartialShifts(input, marker, i, k);
    } else {
      WholeShifts(input, marker, k);
    }
  }

  /** A slice of the queue after its first event, seen from the queue. */
  lemma SliceOfTail(input: seq<Event>, a: nat, b: nat)
    requires 1 <= a <= b <= |input|
    ensures input[1..][a - 1..b - 1] == input[a..b]
  {
    forall j | 0 <= j < b - a
      ensures input[1..][a - 1..b - 1][j] == input[a..b][j]
    {
    }
  }

  /** The marker's last characters behind one more of its characters. */
  lemma PartialShifts(input: seq<Event>, marker: string, i: nat, k: nat)
    requires i < |marker| && k == |marker| - i - 1 && k < |input|
    requires input[0] == Byte(marker[i]) && input[1..][..k] == Bytes(marker[i + 1..])
    ensures input[..k + 1] == Bytes(marker[i..])
  {
    assert input[..k + 1] == [input[0]] + input[1..][..k];
    assert Bytes(marker[i..]) == [Byte(marker[i])] + Bytes(marker[i + 1..]);
  }

  /** The whole marker, seen from one event further back. */
  lemma WholeShifts(input: seq<Event>, marker: string, k: nat)
    requires |marker| <= k < |input| && input[1..][k - |marker|..k] == Bytes(marker)
    ensures input[k + 1 - |marker|..k + 1] == Bytes(marker)
  {
    assert input[k + 1 - |marker|..k + 1] == input[1..][k - |marker|..k];
  }

  /** `_findLabel` consumes bytes up to a pause or up to the end of the
      marker and no further: on success the marker's characters are the last
      ones taken, and what follows them is still unread. */
  lemma SearchShape(input: seq<Event>, marker: string)
    requires marker != []
    ensures var s := SearchLabel(input, marker); var k := Taken(input, s.rest);
      && s.rest == input[k..]
      && ByteRun(input, k - 1)
      && (s.found ==> k >= |marker| && input[k - |marker|..k] == Bytes(marker)
                      && input[k - 1] == Byte(marker[|marker| - 1]))
      && (!s.found ==> (k >= 1 && input[k - 1].Gap?) || (k == |input| && ByteRun(input, k)))
  {
    if Head(input).Byte? {
      ScanTakes(input, marker, 0);
      ScanEndsWithMarker(input, marker, 0);
      assert marker[0..] == marker;
      var s := SearchLabel(input, marker);
      var k := Taken(input, s.rest);
      if s.found {
        assert input[k - 1] == input[k - |marker|..k][|marker| - 1];
      }
    }
  }

  /** A search never succeeds when the marker's last character does not
      come before the first pause. */
  lemma AbsentLabelNotFound(input: seq<Event>, marker: string)
    requires marker != []
    requires forall j :: 0 <= j < |input| && ByteRun(input, j) ==> input[j] != Byte(marker[|marker| - 1])
    ensures !SearchLabel(input, marker).found
  {
    SearchShape(input, marker);
  }

  /** Bytes that cannot start the marker leave the cursor at 0. */
  lemma {:induction false} ScanSkipsForeign(junk: string, marker: string, rest: seq<Event>)
    requires marker != [] && marker[0] !in junk
    ensures ScanFrom(Bytes(junk) + rest, marker, 0) == ScanFrom(rest, marker, 0)
  {
    if junk == [] {
      assert Bytes(junk) + rest == rest;
    } else {
      assert Head(Bytes(junk) + rest) == Byte(junk[0]) && junk[0] != marker[0];
      assert (Bytes(junk) + rest)[1..] == Bytes(junk[1..]) + rest;
      ScanSkipsForeign(junk[1..], marker, rest);
    }
  }

  lemma {:induction false} ScanMatches(marker: string, i: nat, rest: seq<Event>)
    requires i < |marker|
    ensures ScanFrom(Bytes(marker[i..]) + rest, marker, i) == Search(true, rest)
    decreases |marker| - i
  {
    var input := Bytes(marker[i..]) + rest;
    assert input[0] == Byte(marker[i]);
    if i < |marker| - 1 {
      assert input[1..] == Bytes(marker[i + 1..]) + rest;
      ScanMatches(marker, i + 1, rest);
    } else {
      assert input[1..] == rest;
    }
  }

  /** A marker preceded only by bytes that cannot start it is found, and the
      search stops right after it. */
  lemma SearchFindsLabel(junk: string, marker: string, rest: seq<Event>)
    requires marker != [] && marker[0] !in junk
    ensures SearchLabel(Bytes(junk) + Bytes(marker) + rest, marker) == Search(true, rest)
  {
    assert (Bytes(junk) + Bytes(marker) + rest)[0].Byte?;
    assert Bytes(junk) + Bytes(marker) + rest == Bytes(junk) + (Bytes(marker) + rest);
    ScanSkipsForeign(junk, marker, Bytes(marker) + rest);
    assert marker[0..] == marker;
    ScanMatches(marker, 0, rest);
  }

  /** The naive restart: in "OOK" the second 'O' breaks the match begun by
      the first and is not tried as a new start, so "OK" is not found. */
  lemma RestartSkipsOverlap()
    ensures !SearchLabel([Byte('O'), Byte('O'), Byte('K')], "OK").found
  {
  }

  // ---------------------------------------------------------------------
  // Field extraction

  /** Whether the field was closed, the field characters read (all of them,
      even past a buffer's capacity; on a timeout, the ones read so far), and
      what is left to read. */
  datatype Extraction = Extraction(ok: bool, field: string, rest: seq<Event>)

  /** The extraction loop. Before the field has started, bytes other than
      `begin` are skipped; inside it, every byte but `end` is field content. */
  function ExtractFrom(input: seq<Event>, begin: char, end: char, started: bool): (r: Extraction)
    ensures |r.rest| <= |input|
    ensures |r.field| + (if r.ok then (if started then 1 else 2) else 0) <= |input| - |r.rest|
    decreases |input|
  {
    match Head(input)
    case Gap => Extraction(false, [], Tail(input))
    case Byte(c) =>
      if !started then ExtractFrom(input[1..], begin, end, c == begin)
      else if c == end then Extraction(true, [], input[1..])
      else
        var x := ExtractFrom(input[1..], begin, end, true);
        x.(field := [c] + x.field)
  }

  /** Inside the field, a byte other than the closing one joins the field
      and the extraction carries on from the next event. */
  lemma InsideStep(input: seq<Event>, begin: char, end: char, taken: string)
    requires Head(input).Byte? && Head(input).c != end
    ensures var y := ExtractFrom(input, begin, end, true);
      var z := ExtractFrom(Tail(input), begin, end, true);
      Extraction(y.ok, taken + y.field, y.rest) == Extraction(z.ok, (taken + [Head(input).c]) + z.field, z.rest)
  {
    var z := ExtractFrom(Tail(input), begin, end, true);
    assert taken + ([Head(input).c] + z.field) == (taken + [Head(input).c]) + z.field;
  }

  /** `_fetchField` on the stream. */
  function ExtractField(input: seq<Event>, begin: char, end: char): (r: Extraction)
    ensures |r.rest| <= |input|
    ensures |r.field| + (if r.ok then 2 else 0) <= |input| - |r.rest|
  {
    ExtractFrom(input, begin, end, false)
  }

  /** The shape of an extraction already inside the field: the field bytes
      come first, then either the closing byte (the last one taken) or a
      pause, or the end of the queue. */
  lemma {:induction false} InsideShape(input: seq<Event>, begin: char, end: char)
    ensures var x := ExtractFrom(input, begin, end, true); var k := Taken(input, x.rest);
      && x.rest == input[k..]
      && end !in x.field
      && |x.field| <= k
      && input[..|x.field|] == Bytes(x.field)
      && ByteRun(input, k - 1)
      && (x.ok ==> k == |x.field| + 1 && input[k - 1] == Byte(end))
      && (!x.ok ==> (k == |x.field| + 1 && input[k - 1].Gap?) || (k == |x.field| == |input|))
    decreases |input|, 1
  {
    match Head(input)
    case Gap =>
    case Byte(c) =>
      if c != end {
        InsideShapeStep(input, begin, end);
      }
  }

  /** `InsideShape` when the next byte is field content. */
  lemma {:induction false} InsideShapeStep(input: seq<Event>, begin: char, end: char)
    requires |input| > 0 && input[0].Byte? && input[0].c != end
    ensures var x := ExtractFrom(input, begin, end, true); var k := Taken(input, x.rest);
      && x.rest == input[k..]
      && end !in x.field
      && |x.field| <= k
      && input[..|x.field|] == Bytes(x.field)
      && ByteRun(input, k - 1)
      && (x.ok ==> k == |x.field| + 1 && input[k - 1] == Byte(end))
      && (!x.ok ==> (k == |x.field| + 1 && input[k - 1].Gap?) || (k == |x.field| == |input|))
    decreases |input|, 0
  {
        var c := input[0].c;
        var tail := input[1..];
        InsideShape(tail, begin, end);
        var x' := ExtractFrom(tail, begin, end, true);
        var x := ExtractFrom(input, begin, end, true);
        assert x == x'.(field := [c] + x'.field);
        var k' := Taken(tail, x'.rest);
        assert Taken(input, x.rest) == k' + 1;
        assert x.rest == input[k' + 1..];
        assert input[..|x'.field| + 1] == [Byte(c)] + tail[..|x'.field|];
        assert Bytes([c] + x'.field) == [Byte(c)] + Bytes(x'.field);
        assert forall j :: 1 <= j < k' + 1 ==> input[j] == tail[j - 1];
  }

  /** An extraction takes a prefix of the queue made of bytes, except for a
      final pause when it gives up. */
  lemma {:induction false} ExtractTakes(input: seq<Event>, begin: char, end: char)
    ensures var x := ExtractField(input, begin, end); var k := Taken(input, x.rest);
      && x.rest == input[k..]
      && ByteRun(input, k - 1)
    decreases |input|
  {
    match Head(input)
    case Gap =>
    case Byte(c) =>
      var tail := input[1..];
      var x := ExtractField(input, begin, end);
      if c == begin {
        assert x == ExtractFrom(tail, begin, end, true);
        InsideShape(tail, begin, end);
      } else {
        assert x == ExtractField(tail, begin, end);
        ExtractTakes(tail, begin, end);
      }
      var k': int := Taken(tail, x.rest);
      assert Taken(input, x.rest) == k' + 1;
      assert x.rest == input[k' + 1..];
      assert forall m :: 1 <= m < k' ==> input[m] == tail[m - 1];
  }

  /** On success, the bytes taken are: skipped bytes none of which is
      `begin`, the opening `begin`, the field, and the closing `end` as the
      last byte taken, so nothing after it is read. */
  lemma {:induction false} ExtractClosed(input: seq<Event>, begin: char, end: char)
    ensures var x := ExtractField(input, begin, end); var k := |input| - |x.rest|;
      x.ok ==> && |x.field| + 2 <= k <= |input|
               && input[k - 1] == Byte(end)
               && input[k - 2 - |x.field|] == Byte(begin)
               && input[k - 1 - |x.field|..k - 1] == Bytes(x.field)
               && forall j :: 0 <= j < k - 2 - |x.field| ==> input[j] != Byte(begin)
    decreases |input|
  {
    var x := ExtractField(input, begin, end);
    match Head(input)
    case Gap =>
    case Byte(c) =>
      var tail := input[1..];
      if c == begin {
        InsideShape(tail, begin, end);
        if x.ok {
          assert tail[..|x.field|] == input[1..|x.field| + 1];
        }
      } else {
        ExtractClosed(tail, begin, end);
        assert x == ExtractField(tail, begin, end);
        if x.ok {
          var k := |input| - |x.rest|;
          var k' := |tail| - |x.rest|;
          assert k == k' + 1 && |x.field| + 2 <= k';
          SliceOfTail(input, k - 1 - |x.field|, k - 1);
          assert forall j :: 1 <= j < k - 2 - |x.field| ==> input[j] == tail[j - 1];
        }
      }
  }

  /** Success of the extraction inside a field: a closing byte comes before
      any pause. */
  lemma {:induction false} InsideOkIff(input: seq<Event>, begin: char, end: char)
    ensures ExtractFrom(input, begin, end, true).ok
        <==> exists j :: 0 <= j < |input| && input[j] == Byte(end) && ByteRun(input, j)
    decreases |input|
  {
    match Head(input)
    case Gap =>
      assert forall j :: 0 < j <= |input| ==> !ByteRun(input, j);
    case Byte(c) =>
      if c == end {
        assert input[0] == Byte(end) && ByteRun(input, 0);
      } else {
        var tail := input[1..];
        InsideOkIff(tail, begin, end);
        if exists j :: 0 <= j < |input| && input[j] == Byte(end) && ByteRun(input, j) {
          var j :| 0 <= j < |input| && input[j] == Byte(end) && ByteRun(input, j);
          assert j >= 1 && tail[j - 1] == Byte(end) && ByteRun(tail, j - 1);
        }
        if exists j :: 0 <= j < |tail| && tail[j] == Byte(end) && ByteRun(tail, j) {
          var j :| 0 <= j < |tail| && tail[j] == Byte(end) && ByteRun(tail, j);
          assert input[j + 1] == Byte(end) && ByteRun(input, j + 1);
        }
      }
  }

  /** `_fetchField` succeeds exactly when, before any pause, a `begin` byte
      is later followed by an `end` byte. */
  lemma {:induction false} ExtractOkIff(input: seq<Event>, begin: char, end: char)
    ensures ExtractField(input, begin, end).ok
        <==> exists i, j :: 0 <= i < j < |input| && input[i] == Byte(begin) && input[j] == Byte(end)
                            && ByteRun(input, j)
    decreases |input|, 1
  {
    match Head(input)
    case Gap =>
      assert forall j :: 0 < j <= |input| ==> !ByteRun(input, j);
    case Byte(c) =>
      if c == begin {
        OkAfterBegin(input, begin, end);
      } else {
        OkAfterSkip(input, begin, end);
      }
  }

  /** `ExtractOkIff` when the next byte opens the field. */
  lemma OkAfterBegin(input: seq<Event>, begin: char, end: char)
    requires |input| > 0 && input[0] == Byte(begin)
    ensures ExtractField(input, begin, end).ok
        <==> exists i, j :: 0 <= i < j < |input| && input[i] == Byte(begin) && input[j] == Byte(end)
                            && ByteRun(input, j)
  {
    var tail := input[1..];
    InsideOkIff(tail, begin, end);
    if exists i, j :: 0 <= i < j < |input| && input[i] == Byte(begin) && input[j] == Byte(end) && ByteRun(input, j) {
      var i, j :| 0 <= i < j < |input| && input[i] == Byte(begin) && input[j] == Byte(end) && ByteRun(input, j);
      assert tail[j - 1] == Byte(end) && ByteRun(tail, j - 1);
    }
    if exists j :: 0 <= j < |tail| && tail[j] == Byte(end) && ByteRun(tail, j) {
      var j :| 0 <= j < |tail| && tail[j] == Byte(end) && ByteRun(tail, j);
      assert input[0] == Byte(begin) && input[j + 1] == Byte(end) && ByteRun(input, j + 1);
    }
  }

  /** `ExtractOkIff` when the next byte is skipped. */
  lemma {:induction false} OkAfterSkip(input: seq<Event>, begin: char, end: char)
    requires |input| > 0 && input[0].Byte? && input[0].c != begin
    ensures ExtractField(input, begin, end).ok
        <==> exists i, j :: 0 <= i < j < |input| && input[i] == Byte(begin) && input[j] == Byte(end)
                            && ByteRun(input, j)
    decreases |input|, 0
  {
    var tail := input[1..];
    ExtractOkIff(tail, begin, end);
    if exists i, j :: 0 <= i < j < |input| && input[i] == Byte(begin) && input[j] == Byte(end) && ByteRun(input, j) {
      var i, j :| 0 <= i < j < |input| && input[i] == Byte(begin) && input[j] == Byte(end) && ByteRun(input, j);
      assert i >= 1;
      assert tail[i - 1] == Byte(begin) && tail[j - 1] == Byte(end) && ByteRun(tail, j - 1);
    }
    if exists i, j :: 0 <= i < j < |tail| && tail[i] == Byte(begin) && tail[j] == Byte(end) && ByteRun(tail, j) {
      var i, j :| 0 <= i < j < |tail| && tail[i] == Byte(begin) && tail[j] == Byte(end) && ByteRun(tail, j);
      assert input[i + 1] == Byte(begin) && input[j + 1] == Byte(end) && ByteRun(input, j + 1);
    }
  }

  /** A delimited field as the modem sends it: bytes that are not `begin`,
      the opening `begin`, the content, the closing `end`. */
  function Framed(junk: string, begin: char, content: string, end: char): seq<Event>
  {
    Bytes(junk) + [Byte(begin)] + Bytes(content) + [Byte(end)]
  }

  lemma {:induction false} InsideFramed(content: string, begin: char, end: char, more: seq<Event>)
    requires end !in content
    ensures ExtractFrom(Bytes(content) + [Byte(end)] + more, begin, end, true) == Extraction(true, content, more)
  {
    var input := Bytes(content) + [Byte(end)] + more;
    if content == [] {
      assert input == [Byte(end)] + more;
    } else {
      assert input[0] == Byte(content[0]);
      assert input[1..] == Bytes(content[1..]) + [Byte(end)] + more;
      InsideFramed(content[1..], begin, end, more);
      assert [content[0]] + content[1..] == content;
    }
  }

  lemma {:induction false} InsideTimesOut(content: string, begin: char, end: char, more: seq<Event>)
    requires end !in content
    ensures ExtractFrom(Bytes(content) + [Gap] + more, begin, end, true) == Extraction(false, content, more)
  {
    var input := Bytes(content) + [Gap] + more;
    if content == [] {
      assert input == [Gap] + more;
    } else {
      assert input[0] == Byte(content[0]);
      assert input[1..] == Bytes(content[1..]) + [Gap] + more;
      InsideTimesOut(content[1..], begin, end, more);
      assert [content[0]] + content[1..] == content;
    }
  }

  /** A field that opens but is cut off by a pause: the extraction fails,
      yet reports the characters read so far, which the driver has already
      copied into its buffer; the pause is taken. */
  lemma {:induction false} ExtractTimesOut(junk: string, begin: char, content: string, end: char, more: seq<Event>)
    requires begin !in junk && end !in content
    ensures ExtractField(Bytes(junk) + [Byte(begin)] + (Bytes(content) + [Gap] + more), begin, end)
         == Extraction(false, content, more)
  {
    var input := Bytes(junk) + [Byte(begin)] + (Bytes(content) + [Gap] + more);
    if junk == [] {
      assert input == [Byte(begin)] + (Bytes(content) + [Gap] + more);
      InsideTimesOut(content, begin, end, more);
    } else {
      assert input[0] == Byte(junk[0]);
      assert input[1..] == Bytes(junk[1..]) + [Byte(begin)] + (Bytes(content) + [Gap] + more);
      ExtractTimesOut(junk[1..], begin, content, end, more);
    }
  }

  /** Extraction reads back exactly the content of a framed field and leaves
      what follows the closing byte unread. */
  lemma {:induction false} ExtractFramed(junk: string, begin: char, content: string, end: char, more: seq<Event>)
    requires begin !in junk && end !in content
    ensures ExtractField(Framed(junk, begin, content, end) + more, begin, end) == Extraction(true, content, more)
  {
    var input := Framed(junk, begin, content, end) + more;
    if junk == [] {
      assert input == [Byte(begin)] + (Bytes(content) + [Byte(end)] + more);
      InsideFramed(content, begin, end, more);
    } else {
      assert input[0] == Byte(junk[0]);
      assert input[1..] == Framed(junk[1..], begin, content, end) + more;
      ExtractFramed(junk[1..], begin, content, end, more);
    }
  }

  // ---------------------------------------------------------------------
  // Drain

  /** `_flushSerial`: everything up to and including the first pause is
      read and dropped. */
  function AfterFirstGap(input: seq<Event>): (r: seq<Event>)
    ensures |r| < |input| || (input == [] && r == [])
    decreases |input|
  {
    match Head(input)
    case Gap => Tail(input)
    case Byte(_) => AfterFirstGap(input[1..])
  }

  /** The drain takes bytes and stops at the first pause, which it takes too;
      with no pause left it takes everything. */
  lemma {:induction false} DrainShape(input: seq<Event>)
    ensures var k := Taken(input, AfterFirstGap(input));
      && AfterFirstGap(input) == input[k..]
      && ByteRun(input, k - 1)
      && ((k >= 1 && input[k - 1].Gap?) || (k == |input| && ByteRun(input, k)))
    decreases |input|
  {
    match Head(input)
    case Gap =>
    case Byte(_) => DrainShape(input[1..]);
  }

  /** A reply of bytes ended by a pause is drained whole, and nothing after
      the pause is touched. */
  lemma {:induction false} DrainReply(reply: string, more: seq<Event>)
    ensures AfterFirstGap(Bytes(reply) + [Gap] + more) == more
  {
    var input := Bytes(reply) + [Gap] + more;
    if reply == [] {
      assert input == [Gap] + more;
    } else {
      assert input[1..] == Bytes(reply[1..]) + [Gap] + more;
      DrainReply(reply[1..], more);
    }
  }
}
