/**
 * The capture timestamp and every string derived from it with `strftime`:
 * the date and time cells of each row, the day folder and the per-genre
 * file name, and `os.path.join` on POSIX.
 */
module Naming {

  /** A civil date and time in Japan Standard Time, to the minute. */
  datatype DateTime = DateTime(year: int, month: int, day: int, hour: int, minute: int) {
    /**
     * A calendar date and time of day. Years are those `%Y` writes as four
     * digits on every C library: a Python `datetime` also allows 1 to 999.
     */
    predicate Valid() {
      && 1000 <= year <= 9999
      && 1 <= month <= 12
      && 1 <= day <= DaysInMonth(year, month)
      && 0 <= hour < 24
      && 0 <= minute < 60
    }
  }

  /** The one capture time of a run, read once from the clock. */
  type Timestamp = dt: DateTime | dt.Valid() witness DateTime(1000, 1, 1, 0, 0)

  predicate IsLeapYear(y: int) {
    y % 4 == 0 && (y % 100 != 0 || y % 400 == 0)
  }

  function DaysInMonth(y: int, m: int): int {
    if m == 2 then (if IsLeapYear(y) then 29 else 28)
    else if m == 4 || m == 6 || m == 9 || m == 11 then 30
    else 31
  }

  /** Two timestamps that format to the same `%Y%m%d%H%M`. */
  predicate SameMinute(t: Timestamp, u: Timestamp) {
    t.year == u.year && t.month == u.month && t.day == u.day && t.hour == u.hour && t.minute == u.minute
  }

  // Decimal digits and their values

  predicate IsDigit(c: char) {
    '0' <= c <= '9'
  }

  function Digit(d: nat): (c: char)
    requires d < 10
    ensures IsDigit(c)
  {
    (48 + d) as char
  }

  function DigitValue(c: char): nat
    requires IsDigit(c)
  {
    c as nat - 48
  }

  /** The number that a string of decimal digits spells. */
  function Decimal(s: string): nat
    requires forall k :: 0 <= k < |s| ==> IsDigit(s[k])
  {
    if s == [] then 0 else Decimal(s[..|s| - 1]) * 10 + DigitValue(s[|s| - 1])
  }

  /** `%m`, `%d`, `%H`, `%M`: two digits, zero-padded. */
  function Pad2(n: nat): (r: string)
    requires n < 100
    ensures |r| == 2 && forall k :: 0 <= k < 2 ==> IsDigit(r[k])
  {
    [Digit(n / 10), Digit(n % 10)]
  }

  /** `%Y`: four digits, zero-padded. */
  function Pad4(n: nat): (r: string)
    requires n < 10000
    ensures |r| == 4 && forall k :: 0 <= k < 4 ==> IsDigit(r[k])
  {
    Pad2(n / 100) + Pad2(n % 100)
  }

  lemma Pad2RoundTrip(n: nat)
    requires n < 100
    ensures Decimal(Pad2(n)) == n
  {
    var p := Pad2(n);
    assert p[..1] == [Digit(n / 10)];
    assert p[..1][..0] == [];
    assert Decimal(p[..1]) == DigitValue(Digit(n / 10)) == n / 10;
    assert DigitValue(p[1]) == n % 10;
  }

  lemma Pad4RoundTrip(n: nat)
    requires n < 10000
    ensures Decimal(Pad4(n)) == n
  {
    var hi, lo := Pad2(n / 100), Pad2(n % 100);
    var p := hi + lo;
    assert p[..3] == hi + [lo[0]];
    assert p[..3][..2] == hi;
    Pad2RoundTrip(n / 100);
    Pad2RoundTrip(n % 100);
    assert Decimal(lo) == DigitValue(lo[0]) * 10 + DigitValue(lo[1]) by {
      assert lo[..1] == [lo[0]];
      assert lo[..1][..0] == [];
    }
  }

  lemma Pad2Injective(m: nat, n: nat)
    requires m < 100 && n < 100
    ensures Pad2(m) == Pad2(n) <==> m == n
  {
    if Pad2(m) == Pad2(n) {
      Pad2RoundTrip(m);
      Pad2RoundTrip(n);
    }
  }

  lemma Pad4Injective(m: nat, n: nat)
    requires m < 10000 && n < 10000
    ensures Pad4(m) == Pad4(n) <==> m == n
  {
    if Pad4(m) == Pad4(n) {
      Pad4RoundTrip(m);
      Pad4RoundTrip(n);
    }
  }

  // The strings formatted from the timestamp

  /** `strftime('%Y-%m-%d')`, the `scrp_date` cell. */
  function DateCell(t: Timestamp): string {
    Pad4(t.year) + "-" + Pad2(t.month) + "-" + Pad2(t.day)
  }

  /** `strftime('%H:%M')`, the `scrp_time` cell. */
  function TimeCell(t: Timestamp): string {
    Pad2(t.hour) + ":" + Pad2(t.minute)
  }

  /** `strftime('%Y_%m%d')`, the date prefix shared by the folder and the file names. */
  function DayStamp(t: Timestamp): string {
    Pad4(t.year) + "_" + Pad2(t.month) + Pad2(t.day)
  }

  /** `strftime('%Y_%m%d_cmnt')`, the folder of one day's files. */
  function FolderName(t: Timestamp): string {
    DayStamp(t) + "_cmnt"
  }

  /** `f"{strftime('%Y_%m%d_%H%M')}_cmnt_{genre_en}.csv"`. */
  function FileName(t: Timestamp, genre: string): string {
    DayStamp(t) + "_" + Pad2(t.hour) + Pad2(t.minute) + "_cmnt_" + genre + ".csv"
  }

  /** `os.path.join(dir, name)` on POSIX. */
  function JoinPath(dir: string, name: string): string {
    if name != [] && name[0] == '/' then name
    else if dir == [] || dir[|dir| - 1] == '/' then dir + name
    else dir + "/" + name
  }

  /** The path of the file written for `genre` in the run captured at `t`. */
  function FilePath(t: Timestamp, genre: string): string {
    JoinPath(FolderName(t), FileName(t, genre))
  }

  // What the formatted strings say

  /** The date cell reads back, field by field, as the capture date. */
  lemma DateCellFields(t: Timestamp)
    ensures var c := DateCell(t);
      && |c| == 10 && c[4] == '-' && c[7] == '-'
      && Decimal(c[..4]) == t.year && Decimal(c[5..7]) == t.month && Decimal(c[8..]) == t.day
  {
    var c := DateCell(t);
    assert c[..4] == Pad4(t.year);
    assert c[5..7] == Pad2(t.month);
    assert c[8..] == Pad2(t.day);
    Pad4RoundTrip(t.year);
    Pad2RoundTrip(t.month);
    Pad2RoundTrip(t.day);
  }

  /** The time cell reads back as the capture hour and minute. */
  lemma TimeCellFields(t: Timestamp)
    ensures var c := TimeCell(t);
      && |c| == 5 && c[2] == ':' && Decimal(c[..2]) == t.hour && Decimal(c[3..]) == t.minute
  {
    var c := TimeCell(t);
    assert c[..2] == Pad2(t.hour);
    assert c[3..] == Pad2(t.minute);
    Pad2RoundTrip(t.hour);
    Pad2RoundTrip(t.minute);
  }

  /** The file name begins with the same `YYYY_MMDD` as the folder that holds it. */
  lemma FileMatchesFolder(t: Timestamp, genre: string)
    ensures FileName(t, genre)[..9] == FolderName(t)[..9] == DayStamp(t)
  {
    assert |DayStamp(t)| == 9;
  }

  /** Where each timestamp field and the genre code sit in a file path. */
  lemma PathLayout(t: Timestamp, genre: string)
    ensures var p := FilePath(t, genre);
      && |p| == 39 + |genre|
      && p[..4] == Pad4(t.year) && p[5..7] == Pad2(t.month) && p[7..9] == Pad2(t.day)
      && p[25..27] == Pad2(t.hour) && p[27..29] == Pad2(t.minute)
      && p[35..35 + |genre|] == genre
  {
    var dir, name := FolderName(t), FileName(t, genre);
    var p := FilePath(t, genre);
    assert |dir| == 14 && dir[13] == 't';
    assert name[0] == Pad4(t.year)[0];
    assert p == dir + "/" + name;
    var day := DayStamp(t);
    assert p[..4] == day[..4] && p[5..7] == day[5..7] && p[7..9] == day[7..9];
    assert p[15..] == name;
    assert name[10..12] == Pad2(t.hour) && name[12..14] == Pad2(t.minute);
    assert name[20..20 + |genre|] == genre;
  }

  /**
   * Two writes land on the same path exactly when they share the capture
   * minute and the genre code: a later run in the same minute overwrites,
   * any other run or genre gets a file of its own.
   */
  lemma FilePathCollidesIff(t: Timestamp, u: Timestamp, g: string, h: string)
    ensures FilePath(t, g) == FilePath(u, h) <==> SameMinute(t, u) && g == h
  {
    if FilePath(t, g) == FilePath(u, h) {
      PathLayout(t, g);
      PathLayout(u, h);
      Pad4Injective(t.year, u.year);
      Pad2Injective(t.month, u.month);
      Pad2Injective(t.day, u.day);
      Pad2Injective(t.hour, u.hour);
      Pad2Injective(t.minute, u.minute);
    }
  }
}
