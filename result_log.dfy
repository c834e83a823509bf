/**
 * The result log shown in the window's text block. Every message becomes one
 * line "[HH:mm:ss] message" followed by a line break, and the line is put in
 * FRONT of what the block already shows, so the newest entry comes first and
 * nothing is ever removed. The wall-clock time of day is a parameter.
 */
module ResultLog {
  import opened Common

  /** A local time of day as the clock reports it (a leap second is allowed). */
  datatype TimeOfDay = TimeOfDay(hour: nat, minute: nat, second: nat) {
    predicate Valid() {
      hour < 24 && minute < 60 && second <= 60
    }
  }

  predicate IsDigit(c: char) {
    '0' <= c <= '9'
  }

  function DigitValue(c: char): (n: nat)
    requires IsDigit(c)
    ensures n < 10
  {
    (c - '0') as nat
  }

  /** A number below 100 written with exactly two digits, padded with a leading zero. */
  function TwoDigits(n: nat): (r: string)
    requires n < 100
    ensures |r| == 2 && IsDigit(r[0]) && IsDigit(r[1])
    ensures DigitValue(r[0]) * 10 + DigitValue(r[1]) == n
  {
    [('0' as int + n / 10) as char, ('0' as int + n % 10) as char]
  }

  /**
   * The C++ timestamp `%H:%M:%S`, which always separates with ':'; the C#
   * `HH:mm:ss` uses the current culture's time separator, taken here to be ':'.
   */
  function FormatTime(t: TimeOfDay): (r: string)
    requires t.Valid()
    ensures |r| == 8 && r[2] == ':' && r[5] == ':'
  {
    TwoDigits(t.hour) + ":" + TwoDigits(t.minute) + ":" + TwoDigits(t.second)
  }

  /** Reads back a `HH:mm:ss` timestamp; the partner of `FormatTime`. */
  function ParseTime(s: string): (r: Option<TimeOfDay>)
    ensures r.Some? ==> r.value.Valid()
  {
    if |s| == 8 && s[2] == ':' && s[5] == ':'
       && IsDigit(s[0]) && IsDigit(s[1]) && IsDigit(s[3])
       && IsDigit(s[4]) && IsDigit(s[6]) && IsDigit(s[7])
    then
      var t := TimeOfDay(DigitValue(s[0]) * 10 + DigitValue(s[1]),
                         DigitValue(s[3]) * 10 + DigitValue(s[4]),
                         DigitValue(s[6]) * 10 + DigitValue(s[7]));
      if t.Valid() then Some(t) else None
    else None
  }

  /** The formatted timestamp identifies the time of day it was made from. */
  lemma {:induction false} ParseFormatTime(t: TimeOfDay)
    requires t.Valid()
    ensures ParseTime(FormatTime(t)) == Some(t)
  {
    var h, m, s := TwoDigits(t.hour), TwoDigits(t.minute), TwoDigits(t.second);
    var r := FormatTime(t);
    assert r == h + ":" + m + ":" + s;
    assert r[0] == h[0] && r[1] == h[1];
    assert r[3] == m[0] && r[4] == m[1];
    assert r[6] == s[0] && r[7] == s[1];
  }

  /** Different times of day never share a timestamp. */
  lemma FormatTimeInjective(t: TimeOfDay, u: TimeOfDay)
    requires t.Valid() && u.Valid() && FormatTime(t) == FormatTime(u)
    ensures t == u
  {
    ParseFormatTime(t);
    ParseFormatTime(u);
  }

  /** One log line: "[HH:mm:ss] message" and a line break. */
  function LogLine(now: TimeOfDay, message: string): (r: string)
    requires now.Valid()
    ensures |r| == |message| + 12
    ensures r[0] == '[' && r[1..9] == FormatTime(now) && r[9..11] == "] "
    ensures r[11..|r| - 1] == message && r[|r| - 1] == '\n'
  {
    "[" + FormatTime(now) + "] " + message + "\n"
  }

  /**
   * The buffer after logging `messages` one after the other, each at time
   * `now`, onto a buffer that showed `buffer`.
   */
  function Logged(now: TimeOfDay, messages: seq<string>, buffer: string): string
    requires now.Valid()
  {
    if messages == [] then buffer
    else LogLine(now, messages[|messages| - 1]) + Logged(now, messages[..|messages| - 1], buffer)
  }

  /** The lines of `messages`, newest (last logged) first. */
  function NewestFirst(now: TimeOfDay, messages: seq<string>): string
    requires now.Valid()
  {
    if messages == [] then []
    else NewestFirst(now, messages[1..]) + LogLine(now, messages[0])
  }

  /**
   * Logging only ever prepends: the old buffer survives intact as a suffix,
   * preceded by the new lines in reverse order of logging.
   */
  lemma {:induction false} LoggedIsNewestFirst(now: TimeOfDay, messages: seq<string>, buffer: string)
    requires now.Valid()
    ensures Logged(now, messages, buffer) == NewestFirst(now, messages) + buffer
    decreases |messages|
  {
    if messages != [] {
      var n := |messages|;
      var init := messages[..n - 1];
      LoggedIsNewestFirst(now, init, buffer);
      PrefixSnoc(messages, n - 1);
      assert messages[..n] == messages;
      NewestFirstSnoc(now, init, messages[n - 1]);
      AppendAssoc(LogLine(now, messages[n - 1]), NewestFirst(now, init), buffer);
    }
  }

  lemma {:induction false} NewestFirstSnoc(now: TimeOfDay, messages: seq<string>, m: string)
    requires now.Valid()
    ensures NewestFirst(now, messages + [m]) == LogLine(now, m) + NewestFirst(now, messages)
    decreases |messages|
  {
    if messages == [] {
      assert [m][1..] == [];
      assert messages + [m] == [m];
    } else {
      AppendTail(messages, [m]);
      NewestFirstSnoc(now, messages[1..], m);
      AppendAssoc(LogLine(now, m), NewestFirst(now, messages[1..]), LogLine(now, messages[0]));
    }
  }

  /** Logging the messages one at a time: each step puts one more line in front. */
  lemma LoggedStep(now: TimeOfDay, messages: seq<string>, i: nat, buffer: string)
    requires now.Valid() && i < |messages|
    ensures Logged(now, messages[..i + 1], buffer) == LogLine(now, messages[i]) + Logged(now, messages[..i], buffer)
  {
    assert messages[..i + 1][..i] == messages[..i];
  }

  /** Logging two batches one after the other is logging their concatenation. */
  lemma {:induction false} LoggedAppend(now: TimeOfDay, first: seq<string>, second: seq<string>, buffer: string)
    requires now.Valid()
    ensures Logged(now, first + second, buffer) == Logged(now, second, Logged(now, first, buffer))
    decreases |second|
  {
    if second == [] {
      assert first + second == first;
    } else {
      AppendInit(first, second);
      LoggedAppend(now, first, second[..|second| - 1], buffer);
    }
  }
}
