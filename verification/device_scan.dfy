/** Device discovery over the text of /proc/bus/input/devices, shared by
    `find_touchpad` (pywm/touchpad/touchpad.py) and `find_multitouch`
    (pywm/multitouch.py), which run the same loop. Reading the file is left
    to the caller: the model takes its lines. */
module DeviceScan {
  import opened Util

  const NamePrefix: string := "N: Name="
  const HandlersPrefix: string := "H: Handlers="
  const DevicePrefix: string := "/dev/input/"
  const EventPrefix: string := "event"

  /** Outcome of a scan. `Malformed` is the IndexError Python raises out of
      the scan when a name line has no double quote. */
  datatype ScanResult = Found(path: string) | NotFound | Malformed

  /** Python's `s.split(c)[1]`: the text between the first and the second
      occurrence of `c` (or the end of `s`); None where Python raises
      IndexError because `c` does not occur. */
  function Field1(s: string, c: char): (r: Option<string>)
    ensures r.None? <==> forall k :: 0 <= k < |s| ==> s[k] != c
    ensures r.Some? ==> forall k :: 0 <= k < |r.value| ==> r.value[k] != c
  {
    match FirstIndexOf(s, c)
    case None => None
    case Some(i) =>
      var rest := s[i + 1..];
      match FirstIndexOf(rest, c)
      case None => Some(rest)
      case Some(j) => Some(rest[..j])
  }

  /** The characters Python's `str.split()` treats as separators (the ASCII
      ones). */
  predicate IsSpace(c: char)
  {
    c == ' ' || c == '\t' || c == '\n' || c == '\r' || c == '\U{0B}' || c == '\U{0C}'
    || c == '\U{1C}' || c == '\U{1D}' || c == '\U{1E}' || c == '\U{1F}'
  }

  /** Length of the leading run of non-space characters. */
  function WordLength(s: string): (n: nat)
    ensures n <= |s|
    ensures forall k :: 0 <= k < n ==> !IsSpace(s[k])
    ensures n < |s| ==> IsSpace(s[n])
  {
    if |s| == 0 || IsSpace(s[0]) then 0 else 1 + WordLength(s[1..])
  }

  /** Python's `s.split()`: the maximal runs of non-space characters. */
  function Words(s: string): (ws: seq<string>)
    ensures forall w :: w in ws ==> |w| > 0 && forall k :: 0 <= k < |w| ==> !IsSpace(w[k])
    decreases |s|
  {
    if |s| == 0 then []
    else if IsSpace(s[0]) then Words(s[1..])
    else
      var n := WordLength(s);
      [s[..n]] + Words(s[n..])
  }

  /** The first handler whose name starts with "event". */
  function FirstEventHandler(ws: seq<string>): (r: Option<string>)
    ensures r.Some? ==> r.value in ws && StartsWith(r.value, EventPrefix)
    ensures r.Some? ==> exists k :: 0 <= k < |ws| && ws[k] == r.value
                          && forall j :: 0 <= j < k ==> !StartsWith(ws[j], EventPrefix)
    ensures r.None? <==> forall w :: w in ws ==> !StartsWith(w, EventPrefix)
  {
    if |ws| == 0 then None
    else if StartsWith(ws[0], EventPrefix) then Some(ws[0])
    else
      var r := FirstEventHandler(ws[1..]);
      assert r.Some? ==> exists k :: 0 <= k < |ws| - 1 && ws[1..][k] == r.value
                          && forall j :: 0 <= j < k ==> !StartsWith(ws[1..][j], EventPrefix);
      r
  }

  lemma HandlersLineHasField(d: string)
    requires StartsWith(d, HandlersPrefix)
    ensures Field1(d, '=').Some?
  {
    assert d[11] == HandlersPrefix[11] == '=';
  }

  /** The event handler named on a handler line, if it names one. */
  function EventOf(d: string): Option<string>
  {
    match Field1(d, '=')
    case None => None
    case Some(f) => FirstEventHandler(Words(f))
  }

  predicate IsNameLine(d: string)
  {
    StartsWith(d, NamePrefix)
  }

  /** A name line whose quoted device name contains `name`. */
  predicate NameMatches(d: string, name: string)
  {
    IsNameLine(d) && Field1(d, '"').Some? && Contains(Field1(d, '"').value, name)
  }

  /** A name line without a double quote: Python's scan raises on it. */
  predicate IsMalformed(d: string)
  {
    IsNameLine(d) && Field1(d, '"').None?
  }

  /** How the scan reads one line. */
  datatype LineKind =
    | NameLine(matches: bool)        // a name line; whether its quoted name contains the searched name
    | Unquoted                       // a name line without a double quote
    | HandlerLine(event: Option<string>)  // a handler line and its first `event*` handler
    | OtherLine

  function Classify(d: string, name: string): (r: LineKind)
    ensures r.NameLine? <==> IsNameLine(d) && !IsMalformed(d)
    ensures r.NameLine? ==> (r.matches <==> NameMatches(d, name))
    ensures r.Unquoted? <==> IsMalformed(d)
    ensures r.HandlerLine? <==> StartsWith(d, HandlersPrefix)
    ensures r.HandlerLine? ==> r.event == EventOf(d)
  {
    if IsNameLine(d) then
      match Field1(d, '"')
      case None => Unquoted
      case Some(n) => NameLine(Contains(n, name))
    else if StartsWith(d, HandlersPrefix) then HandlerLine(EventOf(d))
    else OtherLine
  }

  /** The loop of `find_touchpad` / `find_multitouch` from line `i` on,
      with `found` the flag carried from the lines before. The flag is never
      reset, and a handler line is only inspected once the flag is up, as in
      the source. */
  function ScanFrom(lines: seq<string>, i: nat, name: string, found: bool): ScanResult
    decreases |lines| - i
  {
    if i >= |lines| then NotFound
    else
      match Classify(lines[i], name)
      case Unquoted => Malformed
      case NameLine(m) => ScanFrom(lines, i + 1, name, found || m)
      case HandlerLine(e) =>
        if found && e.Some? then Found(DevicePrefix + e.value)
        else ScanFrom(lines, i + 1, name, found)
      case OtherLine => ScanFrom(lines, i + 1, name, found)
  }

  /** Python's `find_touchpad(device_name)` / `find_multitouch(device_name, _)`
      as a function of the file's lines. */
  function FindDevice(lines: seq<string>, name: string): ScanResult
  {
    ScanFrom(lines, 0, name, false)
  }

  /** The classification of every line. */
  function Kinds(lines: seq<string>, name: string): (ks: seq<LineKind>)
    ensures |ks| == |lines|
    ensures forall k :: 0 <= k < |lines| ==> ks[k] == Classify(lines[k], name)
  {
    seq(|lines|, k requires 0 <= k < |lines| => Classify(lines[k], name))
  }

  /** Some line before `k` is a matching name line. */
  ghost predicate Flag(ks: seq<LineKind>, k: int)
    requires 0 <= k <= |ks|
  {
    exists i :: 0 <= i < k && ks[i] == NameLine(true)
  }

  /** Line `k` is where the scan may stop: it lists an event handler and a
      matching name line came strictly before it. */
  ghost predicate Eligible(ks: seq<LineKind>, k: int)
    requires 0 <= k < |ks|
  {
    ks[k].HandlerLine? && ks[k].event.Some? && Flag(ks, k)
  }

  /** No line in `[i, k)` ends or aborts the scan. */
  ghost predicate QuietBetween(ks: seq<LineKind>, i: int, k: int)
    requires 0 <= i <= k <= |ks|
  {
    forall j :: i <= j < k ==> ks[j] != Unquoted && !Eligible(ks, j)
  }

  /** Line `k` is the first line from `i` on where the scan stops. */
  ghost predicate StopsAt(ks: seq<LineKind>, i: int, k: int)
    requires 0 <= i <= |ks|
  {
    i <= k < |ks| && Eligible(ks, k) && QuietBetween(ks, i, k)
  }

  /** What the scan from line `i` returns, stated without running it. */
  ghost predicate Characterises(ks: seq<LineKind>, i: int, r: ScanResult)
    requires 0 <= i <= |ks|
  {
    && (r.Found? <==> exists k :: StopsAt(ks, i, k))
    && (forall k :: StopsAt(ks, i, k) ==> r == Found(DevicePrefix + ks[k].event.value))
    && (r.NotFound? <==> QuietBetween(ks, i, |ks|))
  }

  /** The flag after line `i` is the flag before it, or line `i` matching. */
  lemma FlagStep(ks: seq<LineKind>, i: int)
    requires 0 <= i < |ks|
    ensures Flag(ks, i + 1) <==> Flag(ks, i) || ks[i] == NameLine(true)
  {
    if Flag(ks, i + 1) {
      var j :| 0 <= j < i + 1 && ks[j] == NameLine(true);
    }
  }

  lemma QuietStep(ks: seq<LineKind>, i: int, k: int)
    requires 0 <= i < k <= |ks| && ks[i] != Unquoted && !Eligible(ks, i)
    ensures QuietBetween(ks, i, k) <==> QuietBetween(ks, i + 1, k)
  {
  }

  /** When line `i` neither stops nor aborts the scan, the characterisation
      from line `i + 1` carries over to line `i`. */
  lemma CharacterisesStep(ks: seq<LineKind>, i: int, r: ScanResult)
    requires 0 <= i < |ks| && ks[i] != Unquoted && !Eligible(ks, i)
    requires Characterises(ks, i + 1, r)
    ensures Characterises(ks, i, r)
  {
    forall k | true
      ensures StopsAt(ks, i, k) <==> StopsAt(ks, i + 1, k)
    {
      if i < k < |ks| {
        QuietStep(ks, i, k);
      }
    }
    QuietStep(ks, i, |ks|);
    if exists k :: StopsAt(ks, i, k) {
      var k :| StopsAt(ks, i, k);
      assert StopsAt(ks, i + 1, k);
    }
    var next := i + 1;
    if exists k :: StopsAt(ks, next, k) {
      var k :| StopsAt(ks, next, k);
      assert StopsAt(ks, i, k);
    }
  }

  /** The same loop over the classified lines. */
  function ScanKinds(ks: seq<LineKind>, i: nat, found: bool): ScanResult
    decreases |ks| - i
  {
    if i >= |ks| then NotFound
    else
      match ks[i]
      case Unquoted => Malformed
      case NameLine(m) => ScanKinds(ks, i + 1, found || m)
      case HandlerLine(e) =>
        if found && e.Some? then Found(DevicePrefix + e.value)
        else ScanKinds(ks, i + 1, found)
      case OtherLine => ScanKinds(ks, i + 1, found)
  }

  lemma {:induction false} ScanFromKinds(lines: seq<string>, i: nat, name: string, found: bool)
    requires i <= |lines|
    ensures ScanFrom(lines, i, name, found) == ScanKinds(Kinds(lines, name), i, found)
    decreases |lines| - i
  {
    if i < |lines| {
      var k := Classify(lines[i], name);
      if k.NameLine? {
        ScanFromKinds(lines, i + 1, name, found || k.matches);
      } else {
        ScanFromKinds(lines, i + 1, name, found);
      }
    }
  }

  /** The scan from line `i`, with the flag the lines before it set, returns
      the event handler of the first eligible line provided no malformed
      name line comes before it; it reports `Malformed` when a malformed name
      line comes first; and it returns NotFound exactly when there is
      neither. */
  lemma {:induction false} ScanKindsSpec(ks: seq<LineKind>, i: nat)
    requires i <= |ks|
    ensures Characterises(ks, i, ScanKinds(ks, i, Flag(ks, i)))
    decreases |ks| - i
  {
    if i == |ks| {
      return;
    }
    var f := Flag(ks, i);
    var r := ScanKinds(ks, i, f);
    FlagStep(ks, i);
    if ks[i] == Unquoted {
      assert r == Malformed;
      assert !QuietBetween(ks, i, |ks|);
      assert forall k :: i < k <= |ks| ==> !QuietBetween(ks, i, k);
    } else if ks[i].HandlerLine? && f && ks[i].event.Some? {
      assert StopsAt(ks, i, i);
      assert forall k :: i < k <= |ks| ==> !QuietBetween(ks, i, k);
      assert forall k :: StopsAt(ks, i, k) ==> k == i;
    } else {
      assert !Eligible(ks, i);
      assert r == ScanKinds(ks, i + 1, Flag(ks, i + 1));
      ScanKindsSpec(ks, i + 1);
      CharacterisesStep(ks, i, r);
    }
  }

  /** `find_touchpad` / `find_multitouch` return the event handler of the
      first handler line that follows a matching name line, unless a name
      line without a quote comes first; NotFound exactly when neither
      exists. */
  lemma FindDeviceSpec(lines: seq<string>, name: string)
    ensures Characterises(Kinds(lines, name), 0, FindDevice(lines, name))
  {
    var ks := Kinds(lines, name);
    assert !Flag(ks, 0);
    ScanFromKinds(lines, 0, name, false);
    ScanKindsSpec(ks, 0);
  }

  /** A found path is "/dev/input/" followed by an `event*` handler. */
  lemma FoundPathShape(lines: seq<string>, name: string)
    requires FindDevice(lines, name).Found?
    ensures exists h :: StartsWith(h, EventPrefix) && FindDevice(lines, name).path == DevicePrefix + h
  {
    var ks := Kinds(lines, name);
    FindDeviceSpec(lines, name);
    var k :| StopsAt(ks, 0, k);
    var h := EventOf(lines[k]).value;
    assert StartsWith(h, EventPrefix);
  }

  /** Without a name line matching `name`, nothing is found. */
  lemma NoMatchNotFound(lines: seq<string>, name: string)
    requires forall k :: 0 <= k < |lines| ==> !NameMatches(lines[k], name)
    ensures !FindDevice(lines, name).Found?
  {
    var ks := Kinds(lines, name);
    FindDeviceSpec(lines, name);
    forall k | 0 <= k < |ks|
      ensures !Eligible(ks, k)
    {
      assert forall j :: 0 <= j < k ==> ks[j] == Classify(lines[j], name);
    }
  }
}
