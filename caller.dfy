/**
 Caller resolution of formatter.go: `caller` reports one stack frame as
 "<base file>:<line>", and `getcaller` scans the call stack for the logging
 library's dispatch function `logrus.Entry.log` and asks `caller` for skip
 `d + 3`, where `d` is the dispatch frame's cursor, degrading to the sentinel
 "???: ?".

 The runtime's stack introspection (runtime.Caller, runtime.FuncForPC) is
 replaced by an explicit sequence of frames, as seen from the function that
 looks them up: the frame `skip` levels up is `stack[skip]`, skip 0 being that
 function itself, and a lookup succeeds exactly when `0 <= skip < |stack|`.
 `caller` runs one frame deeper than `getcaller`, so it sees getcaller's stack
 with its own frame in front (`Callee`), and its skip `d + 3` is getcaller's
 skip `d + 2`.
 */
module CallerResolution {
  import opened Wrappers
  import opened Text

  /** One entry of the call stack: qualified function name, source file, line. */
  datatype Frame = Frame(name: string, file: string, line: int)

  /** What is reported when no location can be determined (note the space). */
  const Sentinel: string := "???: ?"

  /** The search bound; compared against the absolute cursor, not a distance. */
  const MaxDepth: int := 9

  /** The last '/'-separated piece of the dispatch function's qualified name. */
  const DispatchName: string := "logrus.Entry.log"

  /** The frame `skip` levels up, if the stack is that deep: runtime.Caller's
      frame and its `ok` result. */
  function Lookup(stack: seq<Frame>, skip: int): Option<Frame>
  {
    if 0 <= skip < |stack| then Some(stack[skip]) else None
  }

  /** The lookup at `skip` succeeds. */
  predicate HasFrame(stack: seq<Frame>, skip: int)
  {
    Lookup(stack, skip).Some?
  }

  /** The frame of `caller` itself where it calls runtime.Caller (formatter.go,
      line 61); its file stands for the path formatter.go was built from. */
  const CallerFrame: Frame := Frame("github.com/sirupsen/logrus.caller", "formatter.go", 61)

  /** The stack as `caller` sees it when `getcaller` calls it: its own frame first,
      then getcaller's frames. (Skip 1 would show getcaller at the line of the
      call rather than of its last lookup; only skips of 3 and more are read.) */
  function Callee(stack: seq<Frame>): seq<Frame>
  {
    [CallerFrame] + stack
  }

  function Max(a: int, b: int): int
  {
    if a < b then b else a
  }

  /** The file's base name, a colon and the decimal line, as fmt.Sprint builds it. */
  function Location(file: string, line: int): string
  {
    Base(file) + ":" + Itoa(line)
  }

  /** Splits a reported location at its last ':' into the file and the line number. */
  function ParseLocation(s: string): Option<(string, int)>
  {
    match LastIndex(s, ':')
    case None => None
    case Some(i) =>
      match ParseInt(s[i + 1..])
      case None => None
      case Some(n) => Some((s[..i], n))
  }

  /** A location reads back as the file's base name and the line. */
  lemma LocationRoundTrip(file: string, line: int)
    ensures ParseLocation(Location(file, line)) == Some((Base(file), line))
  {
    var b, t := Base(file), Itoa(line);
    var s := b + [':'] + t;
    assert Location(file, line) == s;
    ItoaHasNoColon(line);
    LastIndexBefore(b, ':', t);
    assert s[|b| + 1..] == t;
    ItoaRoundTrip(line);
    assert s[..|b|] == b;
  }

  /** A rendered line number holds no ':'. */
  lemma ItoaHasNoColon(n: int)
    ensures ':' !in Itoa(n)
  {
    var t := Itoa(n);
    assert forall i | 0 <= i < |t| :: t[i] != ':';
  }

  /** The sentinel never reads as a location. */
  lemma SentinelIsNotALocation()
    ensures ParseLocation(Sentinel) == None
  {
    assert LastIndex(Sentinel, ':') == Some(3);
    assert Sentinel[4..] == " ?";
    assert !IsDigit(' ');
  }

  /** `caller(depth)`: the location of the frame `depth` levels up, or the sentinel
      when there is none. */
  function Caller(stack: seq<Frame>, depth: int): string
  {
    match Lookup(stack, depth)
    case None => Sentinel
    case Some(f) => Location(f.file, f.line)
  }

  /** Only a missing frame gives the sentinel, and reading any other result back
      recovers the frame's base file name and line. */
  lemma CallerReadsBack(stack: seq<Frame>, depth: int)
    ensures var str := Caller(stack, depth);
      str == Sentinel <==> !HasFrame(stack, depth)
    ensures ParseLocation(Caller(stack, depth)) ==
      if HasFrame(stack, depth) then Some((Base(stack[depth].file), stack[depth].line)) else None
  {
    SentinelIsNotALocation();
    if HasFrame(stack, depth) {
      var f := stack[depth];
      LocationRoundTrip(f.file, f.line);
    }
  }

  /** Equal skips give equal reports. This is a proof aid with no counterpart in
      the source: stated on its own, it lets proofs compare the skips rather than
      the strings, which keeps them small. */
  lemma CallerAtSameSkip(stack: seq<Frame>, a: int, b: int)
    requires a == b
    ensures Caller(stack, a) == Caller(stack, b)
  {
  }

  /** Counted from caller's own frame, skip `k + 1` is getcaller's skip `k`: what
      caller reports there is the location of getcaller's frame `k`, or the
      sentinel when getcaller's stack is not that deep. */
  lemma CallerFromGetcaller(stack: seq<Frame>, k: int)
    requires 0 <= k
    ensures Caller(Callee(stack), k + 1) ==
      if HasFrame(stack, k) then Location(stack[k].file, stack[k].line) else Sentinel
  {
    assert Lookup(Callee(stack), k + 1) == Lookup(stack, k);
  }

  /** The dispatch test of getcaller: the last '/'-separated piece of the frame's
      function name is `logrus.Entry.log`; the split always has a last piece. */
  predicate IsDispatch(f: Frame)
  {
    var funcNames := Split(f.name, '/');
    funcNames[|funcNames| - 1] == DispatchName
  }

  /** The dispatch test looks at the part of the name after its last '/' only. */
  lemma DispatchIsBaseName(f: Frame)
    ensures IsDispatch(f) <==> Base(f.name) == DispatchName
  {
    LastSplitIsBase(f.name);
  }

  /** The first cursor in `lo..hi` whose frame is the dispatch function, looking no
      further than the stack goes. */
  function FindDispatch(stack: seq<Frame>, lo: int, hi: int): (r: Option<int>)
    requires 0 <= lo
    ensures r.Some? ==> lo <= r.value <= hi && r.value < |stack| && IsDispatch(stack[r.value])
    ensures r.Some? ==> forall k | lo <= k < r.value :: !IsDispatch(stack[k])
    ensures r.None? ==> forall k | lo <= k <= hi && k < |stack| :: !IsDispatch(stack[k])
    decreases hi - lo
  {
    if lo > hi || lo >= |stack| then None
    else if IsDispatch(stack[lo]) then Some(lo)
    else FindDispatch(stack, lo + 1, hi)
  }

  /** The search stops at the first dispatch frame in its range. */
  lemma {:induction false} FindDispatchFindsFirst(stack: seq<Frame>, lo: int, hi: int, c: int)
    requires 0 <= lo <= c <= hi && c < |stack| && IsDispatch(stack[c])
    requires forall k | lo <= k < c :: !IsDispatch(stack[k])
    ensures FindDispatch(stack, lo, hi) == Some(c)
    decreases c - lo
  {
    if lo < c {
      FindDispatchFindsFirst(stack, lo + 1, hi, c);
    }
  }

  /** A frame that is not the dispatch function is passed over. */
  lemma FindDispatchSkip(stack: seq<Frame>, lo: int, hi: int)
    requires 0 <= lo <= hi && lo < |stack| && !IsDispatch(stack[lo])
    ensures FindDispatch(stack, lo, hi) == FindDispatch(stack, lo + 1, hi)
  {
  }

  /** A dispatch frame at the start of the range is the one found. */
  lemma FindDispatchAtDispatch(stack: seq<Frame>, lo: int, hi: int)
    requires 0 <= lo <= hi && lo < |stack| && IsDispatch(stack[lo])
    ensures FindDispatch(stack, lo, hi) == Some(lo)
  {
  }

  /** `c` is the first cursor of the scan that starts at `depth - 2` whose frame is the
      dispatch function: every cursor from the start to `c` has a frame, none
      before `c` is the dispatch function, and `c` is within the bound. */
  ghost predicate FirstDispatchAt(stack: seq<Frame>, depth: int, c: int)
  {
    var start := depth - 2;
    && 0 <= start <= c <= Max(start, MaxDepth)
    && c < |stack|
    && IsDispatch(stack[c])
    && forall k | start <= k < c :: !IsDispatch(stack[k])
  }

  /** The first dispatch frame among the cursors getcaller scans, if any. */
  function ScanResult(stack: seq<Frame>, depth: int): Option<int>
  {
    var start := depth - 2;
    if start < 0 then None else FindDispatch(stack, start, Max(start, MaxDepth))
  }

  /** What getcaller returns once its scan has ended: `caller(c + 3)` for the
      dispatch frame `c` it stopped at, or the sentinel. */
  function Report(stack: seq<Frame>, found: Option<int>): string
  {
    match found
    case None => Sentinel
    case Some(c) => Caller(Callee(stack), c + 3)
  }

  /** What `getcaller(depth)` returns: `caller(c + 3)` for the first dispatch frame
      `c` of the bounded scan, or the sentinel when there is none. */
  function ResolveCaller(stack: seq<Frame>, depth: int): string
  {
    Report(stack, ScanResult(stack, depth))
  }

  /** A scan that finds the dispatch frame `c` reports `caller(c + 3)`. */
  lemma ScanFindsDispatch(stack: seq<Frame>, depth: int, c: int)
    requires ScanResult(stack, depth) == Some(c)
    ensures ResolveCaller(stack, depth) == Caller(Callee(stack), c + 3)
  {
  }

  /** The scan reports `caller(c + 3)` for its first dispatch frame `c`. */
  lemma ResolveCallerAtFirstDispatch(stack: seq<Frame>, depth: int, c: int)
    requires FirstDispatchAt(stack, depth, c)
    ensures ResolveCaller(stack, depth) == Caller(Callee(stack), c + 3)
  {
    FindDispatchFindsFirst(stack, depth - 2, Max(depth - 2, MaxDepth), c);
    ScanFindsDispatch(stack, depth, c);
  }

  /** In getcaller's own count, the frame reported is the one two beyond its first
      dispatch frame: its location, or the sentinel when the stack is not that deep. */
  lemma ReportsFrameTwoBeyondDispatch(stack: seq<Frame>, depth: int, c: int)
    requires FirstDispatchAt(stack, depth, c)
    ensures ResolveCaller(stack, depth) ==
      if HasFrame(stack, c + 2) then Location(stack[c + 2].file, stack[c + 2].line) else Sentinel
  {
    ResolveCallerAtFirstDispatch(stack, depth, c);
    CallerAtSameSkip(Callee(stack), c + 3, (c + 2) + 1);
    CallerFromGetcaller(stack, c + 2);
  }

  /** When no frame the scan can reach is the dispatch function, the result is the
      sentinel. */
  lemma NoDispatchGivesSentinel(stack: seq<Frame>, depth: int)
    requires forall k | depth - 2 <= k <= Max(depth - 2, MaxDepth) && HasFrame(stack, k) ::
      !IsDispatch(stack[k])
    ensures ResolveCaller(stack, depth) == Sentinel
  {
  }

  /** A missing frame anywhere in the scan, the first cursor included, ends it with
      the sentinel. */
  lemma MissingFrameGivesSentinel(stack: seq<Frame>, depth: int, c: int)
    requires depth - 2 <= c <= Max(depth - 2, MaxDepth)
    requires !HasFrame(stack, c)
    requires forall k | depth - 2 <= k < c :: HasFrame(stack, k) && !IsDispatch(stack[k])
    ensures ResolveCaller(stack, depth) == Sentinel
  {
    if 0 <= depth - 2 {
      NoDispatchGivesSentinel(stack, depth);
    }
  }

  /** The scan tests every cursor up to the bound, each has a frame and none is the
      dispatch function: the case in which getcaller prints its diagnostic. */
  ghost predicate ScanExhausted(stack: seq<Frame>, depth: int)
  {
    var start := depth - 2;
    && 0 <= start && Max(start, MaxDepth) < |stack|
    && forall k | start <= k <= Max(start, MaxDepth) :: !IsDispatch(stack[k])
  }

  /** An exhausted scan has no dispatch frame and reports the sentinel. */
  lemma ExhaustedGivesSentinel(stack: seq<Frame>, depth: int)
    requires ScanExhausted(stack, depth)
    ensures ResolveCaller(stack, depth) == Sentinel
  {
    NoDispatchGivesSentinel(stack, depth);
  }

  /** The search from the scan's start agrees with the search from cursor `d`: the
      frames before `d` were passed over. */
  ghost predicate SearchResumesAt(stack: seq<Frame>, depth: int, d: int)
  {
    var start := depth - 2;
    0 <= start <= d && FindDispatch(stack, start, Max(start, MaxDepth)) == FindDispatch(stack, d, Max(start, MaxDepth))
  }

  /** A scan that resumes at a missing frame reports the sentinel. */
  lemma ScanStopsAtMissingFrame(stack: seq<Frame>, depth: int, d: int)
    requires depth - 2 < 0 || SearchResumesAt(stack, depth, d)
    requires !HasFrame(stack, d)
    ensures ResolveCaller(stack, depth) == Sentinel
  {
  }

  /** A scan that resumes at a dispatch frame within the bound reports
      `caller(d + 3)`. */
  lemma ScanStopsAtDispatch(stack: seq<Frame>, depth: int, d: int)
    requires SearchResumesAt(stack, depth, d) && d <= Max(depth - 2, MaxDepth)
    requires HasFrame(stack, d) && IsDispatch(stack[d])
    ensures ResolveCaller(stack, depth) == Caller(Callee(stack), d + 3)
  {
    FindDispatchAtDispatch(stack, d, Max(depth - 2, MaxDepth));
    ScanFindsDispatch(stack, depth, d);
  }

  /** A scan that resumes past the bound, with every cursor up to it holding a
      frame, has passed over only non-dispatch frames: it is exhausted. */
  lemma ScanPassesBound(stack: seq<Frame>, depth: int, d: int)
    requires SearchResumesAt(stack, depth, d) && d == Max(depth - 2, MaxDepth) + 1
    requires HasFrame(stack, d - 1)
    ensures ScanExhausted(stack, depth)
    ensures ResolveCaller(stack, depth) == Sentinel
  {
  }

  /** `getcaller(depth)`: a linear scan from cursor `depth - 2`, which looks each
      frame up, stops with the sentinel at a missing frame, reports `caller(d + 3)`
      at the first dispatch frame `d`, and gives up once the cursor passes
      MaxDepth. `exhausted` stands for the diagnostic printed when it gives up;
      `tests` counts the names tested and `lookups` the frame lookups, the one
      made by `caller` included: every test is followed by exactly one lookup,
      the next cursor's or caller's. */
  method GetCaller(stack: seq<Frame>, depth: int)
    returns (str: string, exhausted: bool, ghost tests: nat, ghost lookups: nat)
    ensures str == ResolveCaller(stack, depth)
    ensures exhausted <==> ScanExhausted(stack, depth)
    ensures exhausted ==> str == Sentinel
    ensures tests <= Max(depth - 2, MaxDepth) - (depth - 2) + 1
    ensures lookups == tests + 1
  {
    var d := depth - 2;
    ghost var start, hi := d, Max(d, MaxDepth);
    str := Sentinel;
    exhausted := false;
    tests, lookups := 0, 1;
    var found := Lookup(stack, d);
    while true
      invariant start <= d <= hi
      invariant str == Sentinel && !exhausted
      invariant found == Lookup(stack, d)
      invariant d > start ==> 0 <= start && HasFrame(stack, d - 1)
      invariant 0 <= start ==> SearchResumesAt(stack, depth, d)
      invariant tests == d - start && lookups == tests + 1
      decreases hi - d
    {
      if found.None? {
        ScanStopsAtMissingFrame(stack, depth, d);
        assert !ScanExhausted(stack, depth) by {
          assert d >= |stack| || start < 0;
        }
        return;
      }
      var funcName := found.value.name;
      var funcNames := Split(funcName, '/');
      tests := tests + 1;
      if funcNames[|funcNames| - 1] == DispatchName {
        assert IsDispatch(stack[d]);
        ScanStopsAtDispatch(stack, depth, d);
        assert !ScanExhausted(stack, depth);
        str := Caller(Callee(stack), d + 3);
        lookups := lookups + 1;
        return;
      }
      FindDispatchSkip(stack, d, hi);
      d := d + 1;
      found := Lookup(stack, d);
      lookups := lookups + 1;
      if d > MaxDepth {
        exhausted := true;
        ScanPassesBound(stack, depth, d);
        break;
      }
    }
  }

}
