/** Schedule entries of a section offering and the way FacultyLoadController
    renders them: `UPPER(day) g:i A-g:i A (room)` per entry, entries joined by
    ", ", and the distinct rooms of the entries. Times are stored as an hour and
    a minute; the source's `date('g:i A', strtotime(...))` is written out as
    12-hour formatting of those two numbers. */
module Schedules {
  import opened Text
  import opened Wrappers

  type Hour = h: int | 0 <= h < 24
  type Minute = m: int | 0 <= m < 60

  /** A value of a SQL `time` column, to the minute. */
  datatype Time = Time(hour: Hour, minute: Minute)

  /** A row of section_offering_schedules: a day name, a start and an end time,
      and a nullable room. */
  datatype ScheduleEntry = ScheduleEntry(day: string, start: Time, end: Time, room: Option<string>)

  /** The hour on a 12-hour clock (`g`): 12 for midnight and noon. */
  function Hour12(h: Hour): (r: int)
    ensures 1 <= r <= 12
    ensures r % 12 == h % 12
  {
    if h % 12 == 0 then 12 else h % 12
  }

  /** Two decimal digits with a leading zero (`i`, `H`). */
  function TwoDigits(n: nat): (r: string)
    requires n < 100
    ensures |r| == 2 && AllDigits(r)
  {
    [DigitChar(n / 10), DigitChar(n % 10)]
  }

  function Meridiem(h: Hour): string {
    if h < 12 then "AM" else "PM"
  }

  /** `date('g:i A', ...)`: "8:00 AM", "12:30 PM". */
  function FormatTime12(t: Time): string {
    NatToString(Hour12(t.hour)) + ":" + TwoDigits(t.minute) + " " + Meridiem(t.hour)
  }

  /** Reads a time written as `g:i A` back. */
  function ParseTime12(s: string): Option<Time> {
    var k := if |s| > 1 && s[1] == ':' then 1 else 2;
    if |s| != k + 6 || s[k] != ':' || !AllDigits(s[..k]) || !AllDigits(s[k + 1..k + 3]) || s[k + 3] != ' ' then None
    else
      var h12 := DigitsValue(s[..k]);
      var m := DigitsValue(s[k + 1..k + 3]);
      var mer := s[k + 4..];
      if h12 < 1 || 12 < h12 || 60 <= m || (mer != "AM" && mer != "PM") then None
      else Some(Time(h12 % 12 + (if mer == "PM" then 12 else 0), m))
  }

  lemma TwoDigitsValue(n: nat)
    requires n < 100
    ensures DigitsValue(TwoDigits(n)) == n
  {
    var r := TwoDigits(n);
    assert r[..1] == [DigitChar(n / 10)];
    assert r[..1][..0] == [];
    assert DigitsValue(r[..1]) == n / 10;
    assert DigitsValue(r) == (n / 10) * 10 + n % 10;
  }

  /** The 12-hour rendering loses nothing: it reads back as the same time. */
  lemma ParseFormatTime12(t: Time)
    ensures ParseTime12(FormatTime12(t)) == Some(t)
  {
    var h12 := Hour12(t.hour);
    var hs := NatToString(h12);
    var s := FormatTime12(t);
    var k := |hs|;
    assert k == 1 || k == 2 by {
      if h12 >= 10 { assert NatToString(h12) == NatToString(h12 / 10) + [DigitChar(h12 % 10)]; }
    }
    assert s[k] == ':';
    assert s[..k] == hs;
    assert s[k + 1..k + 3] == TwoDigits(t.minute);
    assert s[k + 4..] == Meridiem(t.hour);
    DigitsValueOfNatToString(h12);
    TwoDigitsValue(t.minute);
  }

  /** Rendering a time is injective. */
  lemma FormatTime12Injective(a: Time, b: Time)
    requires FormatTime12(a) == FormatTime12(b)
    ensures a == b
  {
    ParseFormatTime12(a);
    ParseFormatTime12(b);
  }

  /** `H:i`: "08:00". */
  function FormatHHMM(t: Time): string {
    TwoDigits(t.hour) + ":" + TwoDigits(t.minute)
  }

  /** Laravel's `date_format:H:i` rule: the value must parse as H:i and format
      back to itself, so exactly two digits, a colon and two digits, with the
      hour below 24 and the minute below 60. */
  function ParseHHMM(s: string): (r: Option<Time>)
  {
    if |s| != 5 || !AllDigits(s[..2]) || s[2] != ':' || !AllDigits(s[3..]) then None
    else
      var h := DigitsValue(s[..2]);
      var m := DigitsValue(s[3..]);
      if h < 24 && m < 60 then Some(Time(h, m)) else None
  }

  lemma TwoDigitsOfValue(d: string)
    requires |d| == 2 && AllDigits(d)
    ensures DigitsValue(d) < 100 && TwoDigits(DigitsValue(d)) == d
  {
    assert d[..1][..0] == [];
    assert d[..|d| - 1] == d[..1];
    assert DigitsValue(d[..1]) == DigitValue(d[0]);
    assert DigitsValue(d) == DigitValue(d[0]) * 10 + DigitValue(d[1]);
    assert TwoDigits(DigitsValue(d)) == [d[0], d[1]];
  }

  /** Every time passes the rule in its own H:i form, and a value that passes
      is exactly the H:i form of the time it denotes. */
  lemma HHMMRoundTrip(t: Time, s: string)
    ensures ParseHHMM(FormatHHMM(t)) == Some(t)
    ensures ParseHHMM(s) == Some(t) ==> FormatHHMM(t) == s
  {
    var f := FormatHHMM(t);
    assert f[..2] == TwoDigits(t.hour) && f[3..] == TwoDigits(t.minute);
    TwoDigitsValue(t.hour);
    TwoDigitsValue(t.minute);
    if ParseHHMM(s) == Some(t) {
      TwoDigitsOfValue(s[..2]);
      TwoDigitsOfValue(s[3..]);
      assert s == s[..2] + ":" + s[3..];
    }
  }

  /** ` (room)` when the room is truthy, otherwise nothing (`$schedule->room ? ... : ''`). */
  function RoomPart(room: Option<string>): string {
    if room.Some? && Truthy(room.value) then " (" + room.value + ")" else ""
  }

  /** One entry: `UPPER(day) start-end` and the room part. */
  function RenderEntry(e: ScheduleEntry): string {
    Upper(e.day) + " " + FormatTime12(e.start) + "-" + FormatTime12(e.end) + RoomPart(e.room)
  }

  /** The entries in order, rendered and joined by ", ". */
  function RenderSchedule(entries: seq<ScheduleEntry>): string {
    Join(seq(|entries|, i requires 0 <= i < |entries| => RenderEntry(entries[i])), ", ")
  }

  /** Adding an entry at the end adds its rendering after a ", ". */
  lemma RenderScheduleAppend(entries: seq<ScheduleEntry>, e: ScheduleEntry)
    requires entries != []
    ensures RenderSchedule(entries + [e]) == RenderSchedule(entries) + ", " + RenderEntry(e)
  {
    var parts := seq(|entries|, i requires 0 <= i < |entries| => RenderEntry(entries[i]));
    var es := entries + [e];
    assert seq(|es|, i requires 0 <= i < |es| => RenderEntry(es[i])) == parts + [RenderEntry(e)];
    JoinAppend(parts, RenderEntry(e), ", ");
  }

  lemma RenderScheduleSingle(e: ScheduleEntry)
    ensures RenderSchedule([e]) == RenderEntry(e)
  {
    assert seq(1, i requires 0 <= i < 1 => RenderEntry([e][i])) == [RenderEntry(e)];
  }

  /** What a rendered entry still shows of an entry: the upper-cased day, the
      two times, and the room only when it is truthy. */
  datatype EntryView = EntryView(day: string, start: Time, end: Time, room: Option<string>)

  function View(e: ScheduleEntry): EntryView {
    EntryView(Upper(e.day), e.start, e.end, if e.room.Some? && Truthy(e.room.value) then e.room else None)
  }

  /** Length of the `g:i A` time at the front of s: 7 for a one-digit hour, else 8. */
  function TimeLength(s: string): nat {
    if |s| > 1 && s[1] == ':' then 7 else 8
  }

  function ParseRoomPart(tail: string): Option<Option<string>> {
    if tail == "" then Some(None)
    else if 3 <= |tail| && tail[..2] == " (" && tail[|tail| - 1] == ')' && Truthy(tail[2..|tail| - 1]) then
      Some(Some(tail[2..|tail| - 1]))
    else None
  }

  /** Reads `start-end` and the room part back. */
  function ParseSpan(rest: string): Option<(Time, Time, Option<string>)> {
    var n1 := TimeLength(rest);
    if |rest| <= n1 || rest[n1] != '-' then None
    else
      var rest2 := rest[n1 + 1..];
      var n2 := TimeLength(rest2);
      if |rest2| < n2 then None
      else
        var t1 := ParseTime12(rest[..n1]);
        var t2 := ParseTime12(rest2[..n2]);
        var room := ParseRoomPart(rest2[n2..]);
        if t1.None? || t2.None? || room.None? then None
        else Some((t1.value, t2.value, room.value))
  }

  /** Reads a rendered entry back into what it shows. */
  function ParseEntry(r: string): Option<EntryView> {
    var p := IndexOfChar(r, ' ');
    if p == |r| then None
    else
      match ParseSpan(r[p + 1..])
      case None => None
      case Some((t1, t2, room)) => Some(EntryView(r[..p], t1, t2, room))
  }

  lemma FormatTime12Length(t: Time, x: string)
    ensures |FormatTime12(t)| == 7 || |FormatTime12(t)| == 8
    ensures TimeLength(FormatTime12(t) + x) == |FormatTime12(t)|
  {
    var h12 := Hour12(t.hour);
    if h12 >= 10 {
      assert NatToString(h12) == NatToString(h12 / 10) + [DigitChar(h12 % 10)];
    }
    var f := FormatTime12(t);
    assert (f + x)[1] == f[1];
  }

  lemma UpperNoSpace(day: string)
    requires forall i | 0 <= i < |day| :: day[i] != ' '
    ensures forall i | 0 <= i < |Upper(day)| :: Upper(day)[i] != ' '
  {
  }

  lemma ParseRoomPartOf(room: Option<string>)
    ensures ParseRoomPart(RoomPart(room)) == Some(if room.Some? && Truthy(room.value) then room else None)
  {
    var rp := RoomPart(room);
    if room.Some? && Truthy(room.value) {
      assert rp[..2] == " (";
      assert rp[2..|rp| - 1] == room.value;
    }
  }

  /** ParseSpan splits `f1-f2tail` where the time lengths say. */
  lemma ParseSpanSplit(f1: string, f2: string, tail: string)
    requires TimeLength(f1 + ("-" + f2 + tail)) == |f1|
    requires TimeLength(f2 + tail) == |f2|
    ensures var p1, p2, pr := ParseTime12(f1), ParseTime12(f2), ParseRoomPart(tail);
            ParseSpan(f1 + "-" + f2 + tail)
            == if p1.None? || p2.None? || pr.None? then None else Some((p1.value, p2.value, pr.value))
  {
    var rest := f1 + "-" + f2 + tail;
    assert rest == f1 + ("-" + f2 + tail);
    assert rest[..|f1|] == f1;
    assert rest[|f1|] == '-';
    var rest2 := rest[|f1| + 1..];
    assert rest2 == f2 + tail;
    assert rest2[..|f2|] == f2;
    assert rest2[|f2|..] == tail;
  }

  lemma ParseSpanOf(t1: Time, t2: Time, room: Option<string>)
    ensures ParseSpan(FormatTime12(t1) + "-" + FormatTime12(t2) + RoomPart(room))
         == Some((t1, t2, if room.Some? && Truthy(room.value) then room else None))
  {
    var f2 := FormatTime12(t2);
    var rp := RoomPart(room);
    FormatTime12Length(t1, "-" + f2 + rp);
    FormatTime12Length(t2, rp);
    ParseSpanSplit(FormatTime12(t1), f2, rp);
    ParseFormatTime12(t1);
    ParseFormatTime12(t2);
    ParseRoomPartOf(room);
  }

  lemma ParseEntryDay(u: string, rest: string)
    requires forall i | 0 <= i < |u| :: u[i] != ' '
    ensures IndexOfChar(u + " " + rest, ' ') == |u|
    ensures (u + " " + rest)[..|u|] == u && (u + " " + rest)[|u| + 1..] == rest
  {
    var r := u + " " + rest;
    assert r[|u|] == ' ';
    assert forall j | 0 <= j < |u| :: r[j] == u[j];
  }

  /** A rendered entry reads back as its view, provided the day is one word:
      rendering drops only the day's case and a falsy room. */
  lemma ParseRenderEntry(e: ScheduleEntry)
    requires forall i | 0 <= i < |e.day| :: e.day[i] != ' '
    ensures ParseEntry(RenderEntry(e)) == Some(View(e))
  {
    var u := Upper(e.day);
    var rest := FormatTime12(e.start) + "-" + FormatTime12(e.end) + RoomPart(e.room);
    assert RenderEntry(e) == u + " " + rest;
    UpperNoSpace(e.day);
    ParseEntryDay(u, rest);
    ParseSpanOf(e.start, e.end, e.room);
  }

  /** The rooms of the entries that are truthy (`pluck('room')->filter()`). */
  function TruthyRooms(entries: seq<ScheduleEntry>): (r: seq<string>)
    ensures forall x :: x in r <==> exists i | 0 <= i < |entries| :: entries[i].room == Some(x) && Truthy(x)
    ensures |r| <= |entries|
    ensures |entries| == 1 ==> r == (if entries[0].room.Some? && Truthy(entries[0].room.value) then [entries[0].room.value] else [])
  {
    if entries == [] then []
    else
      var last := entries[|entries| - 1];
      var rest := TruthyRooms(entries[..|entries| - 1]);
      assert forall i | 0 <= i < |entries| - 1 :: entries[..|entries| - 1][i] == entries[i];
      if last.room.Some? && Truthy(last.room.value) then rest + [last.room.value] else rest
  }

  /** The filter keeps the order of the entries: the rooms of a concatenation
      are the rooms of the first part followed by those of the second. */
  lemma {:induction false} TruthyRoomsAppend(a: seq<ScheduleEntry>, b: seq<ScheduleEntry>)
    ensures TruthyRooms(a + b) == TruthyRooms(a) + TruthyRooms(b)
    decreases |b|
  {
    if b == [] {
      assert a + b == a;
    } else {
      var front := b[..|b| - 1];
      assert (a + b)[..|a + b| - 1] == a + front;
      assert (a + b)[|a + b| - 1] == b[|b| - 1];
      TruthyRoomsAppend(a, front);
    }
  }

  /** Index of the first occurrence of x. */
  function FirstIndex(xs: seq<string>, x: string): (i: nat)
    requires x in xs
    ensures i < |xs| && xs[i] == x && x !in xs[..i]
  {
    if xs[0] == x then 0 else 1 + FirstIndex(xs[1..], x)
  }

  lemma FirstIndexPrefix(xs: seq<string>, n: nat, x: string)
    requires n <= |xs| && x in xs[..n]
    ensures FirstIndex(xs, x) == FirstIndex(xs[..n], x)
  {
    var i := FirstIndex(xs[..n], x);
    var j := FirstIndex(xs, x);
    assert xs[..n][..i] == xs[..i];
  }

  predicate NoDuplicates(xs: seq<string>) {
    forall a, b | 0 <= a < b < |xs| :: xs[a] != xs[b]
  }

  /** Collection::unique(): the distinct values, each at its first occurrence,
      in the order of first occurrence. */
  function Distinct(xs: seq<string>): (r: seq<string>)
    ensures NoDuplicates(r)
    ensures forall x :: x in r <==> x in xs
    ensures forall a, b | 0 <= a < b < |r| :: FirstIndex(xs, r[a]) < FirstIndex(xs, r[b])
  {
    if xs == [] then []
    else
      var n := |xs| - 1;
      var d := Distinct(xs[..n]);
      assert xs == xs[..n] + [xs[n]];
      forall y | y in d ensures FirstIndex(xs, y) == FirstIndex(xs[..n], y) < n {
        FirstIndexPrefix(xs, n, y);
      }
      if xs[n] in d then d
      else
        var r := d + [xs[n]];
        assert FirstIndex(xs, xs[n]) == n;
        assert forall a | 0 <= a < |d| :: r[a] == d[a] && r[a] in d;
        r
  }
}
