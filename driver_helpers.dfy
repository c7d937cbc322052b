/** The pure helpers of the simulator driver (main.cpp): unit conversion,
    the test that a socket message is an event, extraction of its JSON
    payload, and how the driver configures and steps its two controllers. */
module DriverHelpers {
  import PidControl

  /** π, the decimal literal of `M_PI`. */
  const PI: real := 3.14159265358979323846

  /** Degrees to radians. */
  function Deg2Rad(x: real): (r: real)
    ensures r * 180.0 == x * PI
  {
    x * PI / 180.0
  }

  /** Radians to degrees. */
  function Rad2Deg(x: real): (r: real)
    ensures r * PI == x * 180.0
  {
    x * 180.0 / PI
  }

  /** The two conversions undo each other. */
  lemma ConversionRoundTrip(x: real)
    ensures Rad2Deg(Deg2Rad(x)) == x
    ensures Deg2Rad(Rad2Deg(x)) == x
  {
    var d := Deg2Rad(x);
    assert Rad2Deg(d) * PI == x * PI;
    var r := Rad2Deg(x);
    assert Deg2Rad(r) * 180.0 == x * 180.0;
  }

  /** "42" at the start of a message longer than two characters marks a
      websocket event: 4 for a message, 2 for an event. */
  function IsEventMessage(msg: string): (r: bool)
    ensures r <==> |msg| > 2 && msg[..2] == "42"
  {
    |msg| != 0 && |msg| > 2 && msg[0] == '4' && msg[1] == '2'
  }

  /** `std::string::npos`, the largest value of a 64-bit `size_t`; the
      search functions return it for "not found". */
  const NPOS: int := 0xFFFF_FFFF_FFFF_FFFF

  /** `size_t` arithmetic is modulo this. */
  const SIZE_MODULUS: int := NPOS + 1

  /** An integer reduced to `size_t`: unsigned arithmetic wraps around.
      The body writes `SIZE_MODULUS` as a literal so that the remainder is
      by a known constant. */
  function SizeT(n: int): (r: nat)
    ensures r < SIZE_MODULUS
    ensures 0 <= n < SIZE_MODULUS ==> r == n
    ensures -SIZE_MODULUS <= n < 0 ==> r == n + SIZE_MODULUS
  {
    n % 0x1_0000_0000_0000_0000
  }

  /** `pat` occurs in `s` starting at position `i`. */
  predicate OccursAt(s: string, pat: string, i: nat) {
    i + |pat| <= |s| && s[i..i + |pat|] == pat
  }

  /** Moving the start of `s` by one shifts every occurrence by one. */
  lemma OccursAtTail(s: string, pat: string, k: nat)
    requires s != []
    ensures OccursAt(s[1..], pat, k) <==> OccursAt(s, pat, k + 1)
  {
    if k + 1 + |pat| <= |s| {
      assert s[1..][k..k + |pat|] == s[k + 1..k + 1 + |pat|];
    }
  }

  /** `s.find(pat)`: the first position where `pat` occurs, or `NPOS`. */
  function Find(s: string, pat: string): (r: nat)
    requires |s| < NPOS
    ensures r == NPOS <==> forall k: nat :: !OccursAt(s, pat, k)
    ensures r != NPOS ==> OccursAt(s, pat, r) && forall k: nat :: k < r ==> !OccursAt(s, pat, k)
  {
    if OccursAt(s, pat, 0) then 0
    else if s == [] then
      assert forall k: nat :: !OccursAt(s, pat, k) by {
        forall k: nat ensures !OccursAt(s, pat, k) {
          if k != 0 { assert k + |pat| > |s|; }
        }
      }
      NPOS
    else
      var r := Find(s[1..], pat);
      forall k: nat ensures OccursAt(s[1..], pat, k) <==> OccursAt(s, pat, k + 1) {
        OccursAtTail(s, pat, k);
      }
      if r == NPOS then
        assert forall k: nat :: !OccursAt(s, pat, k) by {
          forall k: nat ensures !OccursAt(s, pat, k) {
            if k != 0 { assert !OccursAt(s[1..], pat, k - 1); }
          }
        }
        NPOS
      else
        assert forall k: nat :: k < r + 1 ==> !OccursAt(s, pat, k) by {
          forall k: nat | k < r + 1 ensures !OccursAt(s, pat, k) {
            if k != 0 { assert !OccursAt(s[1..], pat, k - 1); }
          }
        }
        r + 1
  }

  /** `s.find_first_of(c)` for a one-character set: the first position of
      `c`, or `NPOS`. */
  function FindFirstOf(s: string, c: char): (r: nat)
    requires |s| < NPOS
    ensures r == NPOS <==> c !in s
    ensures r != NPOS ==> r < |s| && s[r] == c && forall k :: 0 <= k < r ==> s[k] != c
  {
    if s == [] then NPOS
    else if s[0] == c then 0
    else
      var r := FindFirstOf(s[1..], c);
      if r == NPOS then NPOS else r + 1
  }

  /** `s.find_last_of(c)` for a one-character set: the last position of
      `c`, or `NPOS`. */
  function FindLastOf(s: string, c: char): (r: nat)
    requires |s| < NPOS
    ensures r == NPOS <==> c !in s
    ensures r != NPOS ==> r < |s| && s[r] == c && forall k :: r < k < |s| ==> s[k] != c
  {
    if s == [] then NPOS
    else if s[|s| - 1] == c then |s| - 1
    else
      var r := FindLastOf(s[..|s| - 1], c);
      assert forall k :: 0 <= k < |s| - 1 ==> s[..|s| - 1][k] == s[k];
      r
  }

  /** `s.substr(pos, count)`: at most `count` characters from `pos`. */
  function Substr(s: string, pos: nat, count: nat): (r: string)
    requires pos <= |s|
    ensures |r| <= count && |r| <= |s| - pos
    ensures r == s[pos..pos + |r|]
    ensures |r| == count || pos + |r| == |s|
  {
    if count < |s| - pos then s[pos..pos + count] else s[pos..]
  }

  /** `hasData`: the JSON text of a message, from its first '[' through its
      last ']', or "" when the message holds "null" or lacks a bracket. The
      length `b2 - b1 + 1` is computed in `size_t`. */
  function HasData(s: string): (r: string)
    requires |s| < NPOS
    ensures |r| <= |s|
    ensures r != [] ==> r[0] == '['
  {
    var foundNull := Find(s, "null");
    var b1 := FindFirstOf(s, '[');
    var b2 := FindLastOf(s, ']');
    if foundNull != NPOS then ""
    else if b1 != NPOS && b2 != NPOS then Substr(s, b1, SizeT(b2 - b1 + 1))
    else ""
  }

  /** The position `find_first_of` reports is the first occurrence. */
  lemma FindFirstOfIs(s: string, c: char, i: nat)
    requires |s| < NPOS
    requires i < |s| && s[i] == c && forall k :: 0 <= k < i ==> s[k] != c
    ensures FindFirstOf(s, c) == i
  {
  }

  /** The position `find_last_of` reports is the last occurrence. */
  lemma FindLastOfIs(s: string, c: char, j: nat)
    requires |s| < NPOS
    requires j < |s| && s[j] == c && forall k :: j < k < |s| ==> s[k] != c
    ensures FindLastOf(s, c) == j
  {
  }

  /** A message holding "null" anywhere carries no data. */
  lemma HasDataNull(s: string, i: nat)
    requires |s| < NPOS
    requires OccursAt(s, "null", i)
    ensures HasData(s) == ""
  {
  }

  /** Without "null", a message lacking '[' or ']' carries no data. */
  lemma HasDataMissingBracket(s: string)
    requires |s| < NPOS
    requires forall k: nat :: !OccursAt(s, "null", k)
    requires '[' !in s || ']' !in s
    ensures HasData(s) == ""
  {
  }

  /** Once the three searches have been run, `HasData` is the `substr`
      they select. */
  lemma HasDataOfSearches(s: string, i: nat, j: nat)
    requires |s| < NPOS
    requires Find(s, "null") == NPOS
    requires i < |s| && FindFirstOf(s, '[') == i
    requires j < |s| && FindLastOf(s, ']') == j
    ensures HasData(s) == Substr(s, i, SizeT(j - i + 1))
  {
  }

  /** Without "null", the data is the text from the first '[' through the
      last ']' when they come in that order. */
  lemma HasDataPayload(s: string, i: nat, j: nat)
    requires |s| < NPOS
    requires forall k: nat :: !OccursAt(s, "null", k)
    requires i <= j < |s|
    requires s[i] == '[' && forall k :: 0 <= k < i ==> s[k] != '['
    requires s[j] == ']' && forall k :: j < k < |s| ==> s[k] != ']'
    ensures HasData(s) == s[i..j + 1]
    ensures HasData(s)[0] == '[' && HasData(s)[|HasData(s)| - 1] == ']'
  {
    assert Find(s, "null") == NPOS;
    FindFirstOfIs(s, '[', i);
    FindLastOfIs(s, ']', j);
    HasDataOfSearches(s, i, j);
    assert SizeT(j - i + 1) == j - i + 1;
  }

  /** Without "null", when the last ']' comes before the first '[' the
      unsigned length wraps around: adjacent brackets give "", otherwise
      the rest of the message from the first '['. */
  lemma HasDataReversed(s: string, i: nat, j: nat)
    requires |s| < NPOS
    requires forall k: nat :: !OccursAt(s, "null", k)
    requires j < i < |s|
    requires s[i] == '[' && forall k :: 0 <= k < i ==> s[k] != '['
    requires s[j] == ']' && forall k :: j < k < |s| ==> s[k] != ']'
    ensures j + 1 == i ==> HasData(s) == ""
    ensures j + 1 < i ==> HasData(s) == s[i..]
  {
    assert Find(s, "null") == NPOS;
    FindFirstOfIs(s, '[', i);
    FindLastOfIs(s, ']', j);
    HasDataOfSearches(s, i, j);
    assert SizeT(j - i + 1) == if j + 1 == i then 0 else SIZE_MODULUS + j - i + 1;
  }

  /** The steering message the driver sends, `42["steer",<payload>]`. */
  function SteerMessage(payload: string): (msg: string)
    ensures |msg| == |payload| + 12
  {
    "42[\"steer\"," + payload + "]"
  }

  /** Framing a payload without "null" adds no "null": the frame itself
      holds none, and every occurrence that would start in it runs into
      the payload or the closing ']'. */
  lemma SteerMessageNoNull(payload: string)
    requires forall k: nat :: !OccursAt(payload, "null", k)
    ensures forall k: nat :: !OccursAt(SteerMessage(payload), "null", k)
  {
    var msg := SteerMessage(payload);
    var prefix := "42[\"steer\",";
    assert msg == prefix + payload + "]";
    forall k: nat ensures !OccursAt(msg, "null", k) {
      if OccursAt(msg, "null", k) {
        assert msg[k] == 'n' && msg[k + 3] == 'l';
        assert k >= |prefix|;
        assert k + 3 < |msg| - 1;
        assert msg[k..k + 4] == payload[k - |prefix|..k - |prefix| + 4];
        assert OccursAt(payload, "null", k - |prefix|);
      }
    }
  }

  /** The driver's own steering messages are events, and reading one back
      with `HasData` yields its bracketed part whenever the payload holds
      no bracket and no "null" (a JSON object of numbers). */
  lemma SteerMessageRoundTrip(payload: string)
    requires |payload| + 12 < NPOS
    requires '[' !in payload && ']' !in payload
    requires forall k: nat :: !OccursAt(payload, "null", k)
    ensures IsEventMessage(SteerMessage(payload))
    ensures HasData(SteerMessage(payload)) == "[\"steer\"," + payload + "]"
  {
    var msg := SteerMessage(payload);
    var body := "[\"steer\"," + payload + "]";
    assert msg == "42" + body;
    assert msg[2..|msg|] == body;
    SteerMessageNoNull(payload);
    HasDataPayload(msg, 2, |msg| - 1);
  }

  /** The two controllers as the driver sets them up: steering with gains
      (1.0, 0.1, 0.5) and limits (1.0, 0.25), cruise with gains
      (0.1, 0.02, 0.0) and limits (1.0, 0.5). */
  method SetUpControllers() returns (steering: PidControl.PID, cruise: PidControl.PID)
    ensures fresh(steering) && fresh(cruise)
    ensures steering.kp == 1.0 && steering.ki == 0.1 && steering.kd == 0.5
    ensures steering.outputLimit == 1.0 && steering.intErrLimit == 2.5
    ensures cruise.kp == 0.1 && cruise.ki == 0.02 && cruise.kd == 0.0
    ensures cruise.outputLimit == 1.0 && cruise.intErrLimit == 25.0
  {
    steering := new PidControl.PID();
    cruise := new PidControl.PID();
    steering.Init(1.0, 0.1, 0.5);
    steering.SetLimits(1.0, 0.25);
    cruise.Init(0.1, 0.02, 0.0);
    cruise.SetLimits(1.0, 0.5);
  }

  /** The speed the cruise controller holds, in mph. */
  const CRUISE_SET_SPEED: real := 20.0

  /** The error the cruise controller is fed: the speed above the set speed. */
  function SpeedError(speed: real): real {
    -(CRUISE_SET_SPEED - speed)
  }

  /** One controller's share of a frame: `UpdateError` with the error `e`,
      then `TotalError`, which is the command. */
  method Step(c: PidControl.PID, dt: real, e: real) returns (u: real)
    requires dt > 0.0
    modifies c
    ensures c.dError == (e - old(c.pError)) / dt
    ensures c.pError == e
    ensures c.iError == PidControl.Saturate(old(c.iError) + e * dt, c.intErrLimit)
    ensures c.isIntegratorSaturated <==> PidControl.OutOfRange(old(c.iError) + e * dt, c.intErrLimit)
    ensures c.kp == old(c.kp) && c.ki == old(c.ki) && c.kd == old(c.kd)
    ensures c.outputLimit == old(c.outputLimit) && c.intErrLimit == old(c.intErrLimit)
    ensures u == c.TotalError()
    ensures 0.0 <= c.outputLimit ==> -c.outputLimit <= u <= c.outputLimit
    ensures 0.0 <= c.intErrLimit ==> c.IntegratorWithinLimit()
  {
    c.UpdateError(dt, e);
    u := c.TotalError();
  }

  /** One telemetry frame: the steering controller consumes the cross-track
      error, the cruise controller the speed error against 20 mph, and each
      yields its command. Both commands stay within their output limits and
      both integrators within theirs. */
  method ControlFrame(steering: PidControl.PID, cruise: PidControl.PID, dt: real, cte: real, speed: real)
    returns (steerValue: real, throttle: real)
    requires steering != cruise
    requires dt > 0.0
    modifies steering, cruise
    ensures steering.dError == (cte - old(steering.pError)) / dt
    ensures steering.pError == cte
    ensures steering.iError == PidControl.Saturate(old(steering.iError) + cte * dt, steering.intErrLimit)
    ensures steering.isIntegratorSaturated <==> PidControl.OutOfRange(old(steering.iError) + cte * dt, steering.intErrLimit)
    ensures cruise.dError == (SpeedError(speed) - old(cruise.pError)) / dt
    ensures cruise.pError == SpeedError(speed)
    ensures cruise.iError == PidControl.Saturate(old(cruise.iError) + SpeedError(speed) * dt, cruise.intErrLimit)
    ensures cruise.isIntegratorSaturated <==> PidControl.OutOfRange(old(cruise.iError) + SpeedError(speed) * dt, cruise.intErrLimit)
    ensures steering.kp == old(steering.kp) && steering.ki == old(steering.ki) && steering.kd == old(steering.kd)
    ensures cruise.kp == old(cruise.kp) && cruise.ki == old(cruise.ki) && cruise.kd == old(cruise.kd)
    ensures steerValue == steering.TotalError() && throttle == cruise.TotalError()
    ensures 0.0 <= steering.outputLimit ==> -steering.outputLimit <= steerValue <= steering.outputLimit
    ensures 0.0 <= cruise.outputLimit ==> -cruise.outputLimit <= throttle <= cruise.outputLimit
    ensures 0.0 <= steering.intErrLimit ==> steering.IntegratorWithinLimit()
    ensures 0.0 <= cruise.intErrLimit ==> cruise.IntegratorWithinLimit()
    ensures steering.outputLimit == old(steering.outputLimit) && cruise.outputLimit == old(cruise.outputLimit)
    ensures steering.intErrLimit == old(steering.intErrLimit) && cruise.intErrLimit == old(cruise.intErrLimit)
  {
    steerValue := Step(steering, dt, cte);
    var e := SpeedError(speed);
    // the cruise controller's integrator input, unchanged by the steering step
    ghost var sum := cruise.iError + e * dt;
    assert sum == old(cruise.iError) + SpeedError(speed) * dt;
    assert cruise.pError == old(cruise.pError);
    throttle := Step(cruise, dt, e);
    assert cruise.iError == PidControl.Saturate(sum, cruise.intErrLimit);
    assert cruise.isIntegratorSaturated <==> PidControl.OutOfRange(sum, cruise.intErrLimit);
  }

  /** A worked example of the steering configuration (the driver itself
      never calls `Reset`): after a reset to error 0.2, a 0.1 s cycle with
      error 0.3 gives derivative 1.0, integral 0.03, no saturation, and the
      command -0.803. */
  method SteeringWorkedExample() returns (command: real, saturated: bool)
    ensures command == -0.803 && !saturated
  {
    var steering, cruise := SetUpControllers();
    steering.Reset(0.2);
    steering.UpdateError(0.1, 0.3);
    assert steering.dError == 1.0 && steering.iError == 0.03;
    command := steering.TotalError();
    saturated := steering.isIntegratorSaturated;
  }
}
