/** `formatDuration` of the browser client: a non-negative number of
    milliseconds shown as `MM:SS`, or as `HH:MM:SS` from one hour on, together
    with a reader that takes such a string back to whole seconds. */
module Duration {
  import opened Lists

  const MsPerSecond: nat := 1000
  const MsPerHour: nat := 3600000

  /** The three numbers the formatter shows. */
  datatype Clock = Clock(hours: nat, minutes: nat, seconds: nat)

  /** public/main.js:100-104: whole seconds, then seconds and minutes by remainder, and
      hours by division, with no upper bound on hours. The sub-second part is
      dropped. */
  function ClockOf(ms: nat): (c: Clock)
    ensures c.seconds < 60 && c.minutes < 60
    ensures c.hours == ms / MsPerHour
    ensures c.hours > 0 <==> ms >= MsPerHour
    ensures c.hours * 3600 + c.minutes * 60 + c.seconds == ms / MsPerSecond
  {
    var d := ms / 1000;
    var s := d % 60;
    var d' := d / 60;
    Clock(d' / 60, d' % 60, s)
  }

  // ---------------------------------------------------------------------
  // Decimal numerals

  predicate IsDigit(c: char) { '0' <= c <= '9' }

  function DigitValue(c: char): int { c as int - '0' as int }

  function DigitChar(d: nat): (c: char)
    requires d < 10
    ensures IsDigit(c) && DigitValue(c) == d
  {
    "0123456789"[d]
  }

  /** The number a string of decimal digits denotes (leading zeros allowed). */
  function Value(s: string): (r: int)
    ensures (forall i :: 0 <= i < |s| ==> IsDigit(s[i])) ==> r >= 0
  {
    if s == [] then 0
    else
      assert forall i :: 0 <= i < |s| - 1 ==> s[..|s| - 1][i] == s[i];
      Value(s[..|s| - 1]) * 10 + DigitValue(s[|s| - 1])
  }

  /** `"" + n` for a non-negative integer: its decimal numeral, which reads
      back as `n` and has no leading zero. */
  function Decimal(n: nat): (s: string)
    ensures 1 <= |s|
    ensures forall i :: 0 <= i < |s| ==> IsDigit(s[i])
    ensures |s| == 1 <==> n < 10
    ensures n < 100 ==> |s| <= 2
    ensures n >= 10 ==> s[0] != '0'
    ensures Value(s) == n
  {
    if n < 10 then
      [DigitChar(n)]
    else
      var hi := Decimal(n / 10);
      var s := hi + [DigitChar(n % 10)];
      assert s[..|s| - 1] == hi && s[0] == hi[0];
      assert Value(s) == Value(hi) * 10 + n % 10;
      s
  }

  /** public/main.js:107, `(x < 10 ? "0" : "") + x`: a single leading zero below ten,
      so every field has at least two digits, exactly two below a hundred,
      and still reads back as `x`. */
  function Pad(x: nat): (s: string)
    ensures 2 <= |s|
    ensures x < 100 ==> |s| == 2
    ensures x < 10 <==> s[0] == '0'
    ensures forall i :: 0 <= i < |s| ==> IsDigit(s[i])
    ensures Value(s) == x
  {
    if x < 10 then
      var s := "0" + Decimal(x);
      assert s[..1] == "0" && s[..1][..0] == [];
      s
    else Decimal(x)
  }

  // ---------------------------------------------------------------------
  // Joining and splitting on ":"

  /** `Array.prototype.join(":")`. */
  function Join(fs: seq<string>): (r: string)
    ensures |fs| == 0 ==> r == ""
    ensures |fs| >= 1 ==> |r| >= |fs[0]| && r[..|fs[0]|] == fs[0]
    ensures |fs| >= 1 ==> |r| >= |fs[|fs| - 1]| && r[|r| - |fs[|fs| - 1]|..] == fs[|fs| - 1]
    ensures |fs| >= 2 ==> |r| >= |fs[0]| + 1 + |fs[|fs| - 1]| && r[|fs[0]|] == ':'
  {
    if |fs| == 0 then ""
    else if |fs| == 1 then fs[0]
    else fs[0] + ":" + Join(fs[1..])
  }

  /** `String.prototype.split(":")`: the pieces between the colons. */
  function Split(s: string): (r: seq<string>)
    ensures |r| >= 1
  {
    if s == [] then [""]
    else if s[0] == ':' then [""] + Split(s[1..])
    else
      var rest := Split(s[1..]);
      [[s[0]] + rest[0]] + rest[1..]
  }

  lemma {:induction false} SplitNoColon(a: string)
    requires ':' !in a
    ensures Split(a) == [a]
  {
    if a != [] {
      SplitNoColon(a[1..]);
      assert [a[0]] + a[1..] == a;
    }
  }

  lemma {:induction false} SplitAfter(a: string, b: string)
    requires ':' !in a
    ensures Split(a + ":" + b) == [a] + Split(b)
  {
    if a == [] {
      assert a + ":" + b == ":" + b;
      assert (":" + b)[1..] == b;
    } else {
      var s := a + ":" + b;
      assert s[0] == a[0];
      assert s[1..] == a[1..] + ":" + b;
      SplitAfter(a[1..], b);
      assert [a[0]] + a[1..] == a;
    }
  }

  /** Splitting undoes joining when no field holds a colon. */
  lemma {:induction false} SplitJoin(fs: seq<string>)
    requires |fs| >= 1
    requires forall i :: 0 <= i < |fs| ==> ':' !in fs[i]
    ensures Split(Join(fs)) == fs
  {
    if |fs| == 1 {
      SplitNoColon(fs[0]);
    } else {
      SplitAfter(fs[0], Join(fs[1..]));
      SplitJoin(fs[1..]);
      assert [fs[0]] + fs[1..] == fs;
    }
  }

  // ---------------------------------------------------------------------
  // The formatter

  /** `[h > 0 ? h : null, m, s]`. */
  function Fields(c: Clock): seq<Option<nat>>
  {
    [if c.hours > 0 then Some(c.hours) else None, Some(c.minutes), Some(c.seconds)]
  }

  /** `(x) => x !== null`. */
  predicate IsPresent(x: Option<nat>) { x.Some? }

  /** `.map(pad)` over the fields the filter kept. */
  function PadAll(xs: seq<Option<nat>>): seq<string>
    requires forall i :: 0 <= i < |xs| ==> xs[i].Some?
  {
    seq(|xs|, i requires 0 <= i < |xs| => Pad(xs[i].value))
  }

  /** `formatDuration(d)` for a non-negative integer `d`. Its colon-separated
      fields are the padded hours when `d` is at least one hour, then the
      padded minutes and seconds. */
  function FormatDuration(ms: nat): (r: string)
    ensures Split(r) ==
      (if ms >= MsPerHour then [Pad(ClockOf(ms).hours)] else []) + [Pad(ClockOf(ms).minutes), Pad(ClockOf(ms).seconds)]
  {
    var c := ClockOf(ms);
    PresentFields(c);
    var fs := PadAll(Filter(Fields(c), IsPresent));
    assert fs == (if c.hours > 0 then [Pad(c.hours)] else []) + [Pad(c.minutes), Pad(c.seconds)];
    PadColonFree(c.hours);
    PadColonFree(c.minutes);
    PadColonFree(c.seconds);
    SplitJoin(fs);
    Join(fs)
  }

  lemma PadColonFree(x: nat)
    ensures ':' !in Pad(x)
  {
    assert !IsDigit(':');
  }

  /** The fields kept: hours only when positive, minutes and seconds always
      (a zero is not `null`). */
  lemma PresentFields(c: Clock)
    ensures Filter(Fields(c), IsPresent)
      == (if c.hours > 0 then [Some(c.hours)] else []) + [Some(c.minutes), Some(c.seconds)]
  {
    var f := Fields(c);
    var tail: seq<Option<nat>> := [Some(c.minutes), Some(c.seconds)];
    var last: seq<Option<nat>> := [Some(c.seconds)];
    assert f[1..] == tail && tail[1..] == last && last[1..] == [];
    assert Filter(last, IsPresent) == last;
    assert Filter(tail, IsPresent) == tail;
  }

  /** Two fields under an hour and three from an hour on; minutes and seconds
      always two digits, hours at least two. */
  lemma FormatShape(ms: nat)
    ensures |Split(FormatDuration(ms))| == if ms >= MsPerHour then 3 else 2
    ensures var fs := Split(FormatDuration(ms));
      |fs[|fs| - 1]| == 2 && |fs[|fs| - 2]| == 2 && (ms >= MsPerHour ==> |fs[0]| >= 2)
  {
  }

  /** Only the whole second matters: two inputs in the same second print the same. */
  lemma SameSecondSameText(a: nat, b: nat)
    requires a / MsPerSecond == b / MsPerSecond
    ensures FormatDuration(a) == FormatDuration(b)
  {
  }

  // ---------------------------------------------------------------------
  // Reading a formatted duration back

  predicate IsNumeral(s: string) { |s| > 0 && forall i :: 0 <= i < |s| ==> IsDigit(s[i]) }

  /** `h*3600 + m*60 + s`: the whole seconds an hours/minutes/seconds reading denotes. */
  function Seconds(h: int, m: int, s: int): int { h * 3600 + m * 60 + s }

  /** `MM:SS` or `HH:MM:SS` read back as whole seconds. */
  function ReadBack(s: string): Option<int>
  {
    var fs := Split(s);
    if |fs| == 2 && IsNumeral(fs[0]) && IsNumeral(fs[1]) then
      Some(Seconds(0, Value(fs[0]), Value(fs[1])))
    else if |fs| == 3 && IsNumeral(fs[0]) && IsNumeral(fs[1]) && IsNumeral(fs[2]) then
      Some(Seconds(Value(fs[0]), Value(fs[1]), Value(fs[2])))
    else None
  }

  lemma ReadBackTwo(text: string, a: string, b: string)
    requires Split(text) == [a, b] && IsNumeral(a) && IsNumeral(b)
    ensures ReadBack(text) == Some(Seconds(0, Value(a), Value(b)))
  {
  }

  lemma ReadBackThree(text: string, a: string, b: string, d: string)
    requires Split(text) == [a, b, d] && IsNumeral(a) && IsNumeral(b) && IsNumeral(d)
    ensures ReadBack(text) == Some(Seconds(Value(a), Value(b), Value(d)))
  {
  }

  /** Reading back the fields the formatter shows for a clock gives its
      whole seconds. */
  lemma ReadBackShown(text: string, c: Clock)
    requires c.hours > 0 ==> Split(text) == [Pad(c.hours), Pad(c.minutes), Pad(c.seconds)]
    requires c.hours == 0 ==> Split(text) == [Pad(c.minutes), Pad(c.seconds)]
    ensures ReadBack(text) == Some(c.hours * 3600 + c.minutes * 60 + c.seconds)
  {
    var m, sec := Pad(c.minutes), Pad(c.seconds);
    if c.hours > 0 {
      ReadBackThree(text, Pad(c.hours), m, sec);
    } else {
      ReadBackTwo(text, m, sec);
    }
  }

  /** Reading the output back gives exactly the whole seconds of the input. */
  lemma FormatRoundTrip(ms: nat)
    ensures ReadBack(FormatDuration(ms)) == Some(ms / MsPerSecond)
  {
    var c := ClockOf(ms);
    var text := FormatDuration(ms);
    assert Split(text) == (if c.hours > 0 then [Pad(c.hours)] else []) + [Pad(c.minutes), Pad(c.seconds)];
    ReadBackShown(text, c);
  }
}
