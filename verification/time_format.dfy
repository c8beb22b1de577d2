/** `Application.format_time` and the time label built from it. Times are
    milliseconds from the player; the label reads `MM:SS/MM:SS` (position,
    then duration).
 */
module TimeFormat {

  /** `round(ms / 1000)`: Python rounds to the nearest integer, ties to the
      even one. For a whole number of milliseconds this is decided by the
      remainder alone. */
  function RoundedSeconds(ms: nat): (s: nat)
    ensures 1000 * s - 500 <= ms <= 1000 * s + 500
    ensures ms == 1000 * s - 500 || ms == 1000 * s + 500 ==> s % 2 == 0
  {
    var q := ms / 1000;
    var r := ms % 1000;
    if r > 500 || (r == 500 && q % 2 == 1) then q + 1 else q
  }

  predicate IsDigit(c: char) {
    '0' <= c <= '9'
  }

  function DigitValue(c: char): int {
    c as int - '0' as int
  }

  /** The number a two-character decimal field shows. */
  function FieldValue(a: char, b: char): int {
    10 * DigitValue(a) + DigitValue(b)
  }

  /** `"%02d" % n` for `0 <= n < 100`. */
  function Pad2(n: nat): (r: string)
    requires n < 100
    ensures |r| == 2 && IsDigit(r[0]) && IsDigit(r[1])
    ensures FieldValue(r[0], r[1]) == n
  {
    [('0' as int + n / 10) as char, ('0' as int + n % 10) as char]
  }

  /** Splitting a count of seconds into minutes and seconds and dropping
      whole hours keeps it modulo one hour. */
  lemma MinutesSecondsModHour(t: nat)
    ensures 60 * ((t / 60) % 60) + t % 60 == t % 3600
  {
    var a := t / 60;
    var s := t % 60;
    var h := a / 60;
    var m := a % 60;
    assert t == 60 * a + s;
    assert a == 60 * h + m;
    assert t == 3600 * h + (60 * m + s);
    assert 0 <= 60 * m + s < 3600;
  }

  /** `Application.format_time`: always five characters `MM:SS`, both
      fields below 60, showing the rounded seconds modulo one hour. */
  function FormatTime(ms: nat): (r: string)
    ensures |r| == 5 && r[2] == ':'
    ensures IsDigit(r[0]) && IsDigit(r[1]) && IsDigit(r[3]) && IsDigit(r[4])
    ensures 0 <= FieldValue(r[0], r[1]) < 60 && 0 <= FieldValue(r[3], r[4]) < 60
    ensures 60 * FieldValue(r[0], r[1]) + FieldValue(r[3], r[4]) == RoundedSeconds(ms) % 3600
  {
    var total := RoundedSeconds(ms);
    var m, s := total / 60, total % 60;
    var h, m' := m / 60, m % 60;
    MinutesSecondsModHour(total);
    Pad2(m') + ":" + Pad2(s)
  }

  /** Python's `s[k:]`: empty when `s` is shorter than `k`. */
  function DropPrefix(s: string, k: nat): string {
    if |s| >= k then s[k..] else []
  }

  /** `update_duration`'s label text: a zero position and the duration, for a
      non-negative duration; otherwise the label is left alone. */
  function OnDuration(text: string, duration: int): (r: string)
    ensures duration >= 0 ==> |r| == 11 && r[..6] == "00:00/" && r[6..] == FormatTime(duration)
    ensures duration < 0 ==> r == text
  {
    if duration >= 0 then "00:00/" + FormatTime(duration) else text
  }

  /** `update_position`'s label text: the new position before whatever follows
      the first six characters of the old label. */
  function OnPosition(text: string, position: int): (r: string)
    ensures position >= 0 ==>
      && |r| == 6 + |DropPrefix(text, 6)|
      && r[..5] == FormatTime(position) && r[5] == '/'
      && r[6..] == DropPrefix(text, 6)
    ensures position < 0 ==> r == text
  {
    if position >= 0 then FormatTime(position) + "/" + DropPrefix(text, 6) else text
  }

  /** The label shows the duration `d` after its first six characters. */
  predicate ShowsDuration(text: string, d: nat) {
    DropPrefix(text, 6) == FormatTime(d)
  }

  /** A duration update puts the duration where position updates look. */
  lemma DurationShown(text: string, d: nat)
    ensures ShowsDuration(OnDuration(text, d), d)
    ensures OnDuration(text, d)[..6] == "00:00/"
  {
  }

  /** A position update keeps the duration and shows the position in
      front; this works only because `FormatTime` is always five
      characters, so `MM:SS/` is exactly the six the slice drops. */
  lemma PositionKeepsDuration(text: string, d: nat, position: int)
    requires ShowsDuration(text, d)
    ensures ShowsDuration(OnPosition(text, position), d)
    ensures position >= 0 ==> OnPosition(text, position)[..5] == FormatTime(position)
  {
    if position >= 0 {
      var t' := OnPosition(text, position);
      assert t' == FormatTime(position) + "/" + FormatTime(d);
      assert t'[6..] == FormatTime(d);
    }
  }

  /** The label after a run of position updates. */
  function AfterPositions(text: string, positions: seq<int>): string
    decreases |positions|
  {
    if positions == [] then text
    else AfterPositions(OnPosition(text, positions[0]), positions[1..])
  }

  /** However many position ticks follow a duration update, the label
      still shows that duration after its first six characters. */
  lemma {:induction false} DurationSurvivesPositions(text: string, d: nat, positions: seq<int>)
    requires ShowsDuration(text, d)
    ensures ShowsDuration(AfterPositions(text, positions), d)
    decreases |positions|
  {
    if positions != [] {
      PositionKeepsDuration(text, d, positions[0]);
      DurationSurvivesPositions(OnPosition(text, positions[0]), d, positions[1..]);
    }
  }

  /** Ties go to the even second: half a second shows as zero, one and a
      half and two and a half seconds both as two. */
  lemma RoundingExamples()
    ensures RoundedSeconds(500) == 0
    ensures RoundedSeconds(1500) == 2
    ensures RoundedSeconds(2500) == 2
    ensures RoundedSeconds(2501) == 3
  {
  }

  /** One hour, one minute and one second shows as `01:01`: the hour is
      dropped. */
  lemma HoursDropped()
    ensures FormatTime(3661000) == "01:01"
  {
    assert RoundedSeconds(3661000) == 3661;
  }
}
