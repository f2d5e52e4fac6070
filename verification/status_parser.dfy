/**
 Extraction of the PID from the "NSpid" line of `/proc/<pid>/status`
 (pidmap.c: `parse_pid` and `map_pid`).

 The kernel writes the line as "NSpid:" followed by one tab and decimal PID
 per nested PID namespace, outermost first, and a newline. `parse_pid`
 converts the number after the last tab; `map_pid` reads the status text
 as "key:" / "value\n" pairs and hands every value whose key starts with
 "NSpid" to `parse_pid`.

 `map_pid` keeps a flag `p` that would end the loop and report success, but
 nothing ever sets it. The loop therefore runs to the end of the stream or
 to the first value that fails to parse, and the function reports `-ENOENT`
 in every case, including after it has stored a PID. The model keeps this.
 */
module StatusParser {
  import opened CTypes
  import opened Strtoull
  import opened Stdio

  /** The return code of a call and the value its out-pointer refers to
      afterwards (`None` when the pointer is NULL). */
  datatype Call = Call(rc: int, out: Option<PidT>)

  /** `*ptr = v` when `ptr` is not NULL. */
  function Store(ptr: Option<PidT>, v: PidT): (r: Option<PidT>)
    ensures r.None? <==> ptr.None?
    ensures r.Some? ==> r.value == v
  {
    if ptr.Some? then Some(v) else None
  }

  /** `strrchr(s, '\t')`: the index of the last tab, if there is one. */
  function LastTab(s: string): (r: Option<nat>)
    ensures r.None? <==> '\t' !in s
    ensures r.Some? ==> r.value < |s| && s[r.value] == '\t' && '\t' !in s[r.value + 1..]
    decreases |s|
  {
    if s == [] then None
    else if s[|s| - 1] == '\t' then Some(|s| - 1)
    else
      var r := LastTab(s[..|s| - 1]);
      assert r.Some? ==> s[r.value + 1..] == s[..|s| - 1][r.value + 1..] + [s[|s| - 1]];
      assert r.None? ==> s == s[..|s| - 1] + [s[|s| - 1]];
      r
  }

  /** The number `g_ascii_strtoull(s, &end, 0)` accepts at the start of
      `s`: none when no digits follow (`end == s`) or when the number
      overflows (`errno != 0`). */
  function NumberAt(s: string): (r: Option<UInt64>)
    ensures r.Some? ==> exists k | 0 <= k < |s| :: DigitValue(s[k]) < 16
  {
    var c := StrToULL(s, 0);
    if c.end == 0 || c.erange then None
    else Some(c.value)
  }

  /** The number `parse_pid` accepts at the last tab of `val`: none when
      there is no tab, and otherwise a number that was read from digits
      after that tab. */
  function NumberAfterLastTab(val: string): (r: Option<UInt64>)
    ensures '\t' !in val ==> r.None?
    ensures r.Some? ==> LastTab(val).Some? &&
                        exists k | LastTab(val).value < k < |val| :: DigitValue(val[k]) < 16
  {
    match LastTab(val)
    case None => None
    case Some(t) =>
      var r := NumberAt(val[t..]);
      assert r.Some? ==> exists k | 0 < k < |val[t..]| :: DigitValue(val[t..][k]) < 16 by {
        assert DigitValue(val[t..][0]) == 36;
      }
      r
  }

  /** `parse_pid(val, pid)` on the C string `val`: a number at the last tab
      is cast to `pid_t` and stored through `pid` when it is not NULL, and
      the result is 0; without one the result is `-ENOENT` and `*pid` is
      left alone. Success needs a digit after the last tab. */
  function ParsePid(val: string, pid: Option<PidT>): (r: Call)
    requires NUL !in val
    ensures r.rc == 0 || r.rc == -ENOENT
    ensures r.rc != 0 ==> r.out == pid
    ensures r.out.None? <==> pid.None?
    ensures '\t' !in val ==> r.rc == -ENOENT
    ensures r.rc == 0 ==> LastTab(val).Some? &&
                          exists k | LastTab(val).value < k < |val| :: DigitValue(val[k]) < 16
  {
    match NumberAfterLastTab(val)
    case None => Call(-ENOENT, pid)
    case Some(v) => Call(0, Store(pid, ToPidT(v)))
  }

  /** `!strncmp(key, "NSpid", strlen("NSpid"))`, on the raw token. It is
      the comparison of the token's C string: a NUL among the first five
      characters differs from every letter of "NSpid". */
  function IsNSpidKey(key: string): (b: bool)
    ensures b <==> |CString(key)| >= 5 && CString(key)[..5] == "NSpid"
  {
    var s := CString(key);
    assert |s| >= 5 ==> s[..5] == key[..5];
    |key| >= 5 && key[..5] == "NSpid"
  }

  /** The do-while loop of `map_pid` over the unread stream `f`: the value
      of `r` when the loop ends, and `*out`. */
  function MapLoop(f: string, out: Option<PidT>): (r: Call)
    ensures r.rc == 0 || r.rc == -ENOENT
    ensures r.out.None? <==> out.None?
    decreases |f|
  {
    match GetDelim(f, ':')
    case None => Call(0, out)
    case Some(key) =>
      match GetDelim(key.rest, '\n')
      case None => Call(0, out)
      case Some(val) =>
        var r := if IsNSpidKey(key.token) then ParsePid(CString(val.token), out) else Call(0, out);
        if r.rc == 0 then MapLoop(val.rest, r.out) else r
  }

  /** `map_pid(fd, out)` once `fdopen` has succeeded, statement by
      statement; the flag `p` is never assigned, exactly as in pidmap.c.
      It always returns `-ENOENT`; `*out` ends as the fold leaves it. */
  method MapPid(stream: string, out: Option<PidT>) returns (rc: int, written: Option<PidT>)
    ensures rc == -ENOENT
    ensures written == MapLoop(stream, out).out
  {
    var f := stream;
    var p := 0;
    var r := 0;
    written := out;
    while true
      invariant r == 0
      invariant MapLoop(f, written) == MapLoop(stream, out)
      decreases |f|
    {
      var key := GetDelim(f, ':');
      if key.None? {
        break;
      }
      var val := GetDelim(key.value.rest, '\n');
      if val.None? {
        break;
      }
      f := val.value.rest;
      if IsNSpidKey(key.value.token) {
        var c := ParsePid(CString(val.value.token), written);
        r := c.rc;
        written := c.out;
      }
      if !(r == 0 && p == 0) {
        break;
      }
    }
    if r != 0 {
      rc := r;
    } else if p == 0 {
      rc := -ENOENT;
    } else {
      rc := 0;
    }
  }

  /** One "key:value" line of a status file. */
  datatype StatusLine = StatusLine(key: string, value: string)

  /** A line the reader splits back into its key and value: the key holds
      no ':' and the value no newline. */
  predicate WellFormed(l: StatusLine) {
    ':' !in l.key && '\n' !in l.value
  }

  /** The status text made of `lines`, each written as "key:value\n". */
  function Render(lines: seq<StatusLine>): string
  {
    if lines == [] then []
    else lines[0].key + [':'] + lines[0].value + ['\n'] + Render(lines[1..])
  }

  /** What follows the last complete line of a status text: text without a
      ':', or one key, its ':' and a value that no newline ends. */
  predicate IsTail(t: string) {
    ':' !in t || exists k | 0 <= k < |t| :: t[k] == ':' && ':' !in t[..k] && '\n' !in t[k + 1..]
  }

  /** Any text splits into the well-formed lines `map_pid` reads whole,
      one "key:value\n" each, and a tail in which no line is complete. */
  function SplitLines(f: string): (r: (seq<StatusLine>, string))
    ensures forall i | 0 <= i < |r.0| :: WellFormed(r.0[i])
    ensures IsTail(r.1)
    ensures Render(r.0) + r.1 == f
    decreases |f|
  {
    match FirstLine(f)
    case None => ([], f)
    case Some((l, rest)) =>
      var (ls, t) := SplitLines(rest);
      var lines := [l] + ls;
      assert lines[0] == l && lines[1..] == ls;
      RenderFirst(lines, t);
      (lines, t)
  }

  /** The first complete line of `f` and the text after it, or none when
      `f` is a tail. */
  function FirstLine(f: string): (r: Option<(StatusLine, string)>)
    ensures r.None? ==> IsTail(f)
    ensures r.Some? ==> WellFormed(r.value.0) && |r.value.1| < |f|
    ensures r.Some? ==> f == r.value.0.key + [':'] + r.value.0.value + ['\n'] + r.value.1
  {
    match GetDelim(f, ':')
    case None => None
    case Some(k) =>
      if k.token[|k.token| - 1] != ':' then
        GetDelimWithoutDelim(f, ':');
        None
      else
        var key := k.token[..|k.token| - 1];
        GetDelimWithDelim(f, ':');
        match GetDelim(k.rest, '\n')
        case None =>
          TailOfPair(key, k.rest);
          None
        case Some(v) =>
          if v.token[|v.token| - 1] != '\n' then
            GetDelimWithoutDelim(k.rest, '\n');
            TailOfPair(key, k.rest);
            None
          else
            var value := v.token[..|v.token| - 1];
            GetDelimWithDelim(k.rest, '\n');
            LineOfParts(f, key, k.rest, value, v.rest);
            Some((StatusLine(key, value), v.rest))
  }

  /** Regrouping a line read as key, ':' and the rest. */
  lemma LineOfParts(f: string, key: string, rest: string, value: string, after: string)
    requires f == key + [':'] + rest && rest == value + ['\n'] + after
    ensures f == key + [':'] + value + ['\n'] + after
  {
  }

  /** A key without ':' followed by ':' and a value without newline is a
      tail. */
  lemma TailOfPair(key: string, value: string)
    requires ':' !in key && '\n' !in value
    ensures IsTail(key + [':'] + value)
  {
    var t := key + [':'] + value;
    assert t[|key|] == ':' && t[..|key|] == key && t[|key| + 1..] == value;
  }

  /** The "NSpid" value the kernel writes for the PIDs of a process in each
      nested namespace, outermost first: a tab before each decimal PID. */
  function NSpidValue(pids: seq<nat>): (s: string)
    ensures NUL !in s && '\n' !in s && ':' !in s
  {
    if pids == [] then []
    else
      var d := DecimalString(pids[|pids| - 1]);
      assert forall k | 0 <= k < |d| :: d[k] != NUL && d[k] != '\n' && d[k] != ':';
      NSpidValue(pids[..|pids| - 1]) + ['\t'] + d
  }

  /** A numeral followed by a newline holds neither a tab nor a NUL. */
  lemma NumeralLine(d: string)
    requires IsNumeral(d)
    ensures '\t' !in d + ['\n']
    ensures NUL !in d + ['\n']
  {
    var c := d + ['\n'];
    assert forall k | 0 <= k < |c| :: c[k] != '\t' && c[k] != NUL;
  }

  /** The last tab of a + "\t" + c, when c holds no tab, is the one between them. */
  lemma {:induction false} LastTabBetween(a: string, c: string)
    requires '\t' !in c
    ensures LastTab(a + ['\t'] + c) == Some(|a|)
    decreases |c|
  {
    var s := a + ['\t'] + c;
    if c != [] {
      var c' := c[..|c| - 1];
      assert s[|s| - 1] == c[|c| - 1] && c[|c| - 1] in c;
      assert s[..|s| - 1] == a + ['\t'] + c';
      assert forall k | 0 <= k < |c'| :: c'[k] == c[k];
      LastTabBetween(a, c');
    }
  }

  /** A tab with no tab after it is the last one, and the number is read
      from there. */
  lemma NumberAfterInnerTab(a: string, c: string)
    requires '\t' !in c
    ensures NumberAfterLastTab(a + ['\t'] + c) == NumberAt(['\t'] + c)
  {
    LastTabBetween(a, c);
    assert (a + ['\t'] + c)[|a|..] == ['\t'] + c;
  }

  /** The same for a tab at the start of the value. */
  lemma NumberAfterFirstTab(c: string)
    requires '\t' !in c
    ensures NumberAfterLastTab(['\t'] + c) == NumberAt(['\t'] + c)
  {
    NumberAfterInnerTab([], c);
    assert [] + ['\t'] + c == ['\t'] + c;
  }

  /** The outcome of `parse_pid` depends only on the text from the last tab
      on: whatever precedes that tab can be dropped. */
  lemma ParsePidReadsAfterLastTab(a: string, c: string, pid: Option<PidT>)
    requires NUL !in a && NUL !in c
    requires '\t' !in c
    ensures ParsePid(a + ['\t'] + c, pid) == ParsePid(['\t'] + c, pid)
  {
    NumberAfterInnerTab(a, c);
    NumberAfterFirstTab(c);
  }

  /** When the text after the last tab does not begin with a decimal digit,
      white space or a sign, `strtoull` converts nothing (`end == t`) and
      `parse_pid` fails with `-ENOENT`, leaving `*pid` alone. */
  lemma ParsePidNoDigits(a: string, c: string, pid: Option<PidT>)
    requires NUL !in a && NUL !in c
    requires '\t' !in c
    requires c != [] ==> DigitValue(c[0]) >= 10 && !IsSpace(c[0]) && c[0] != '+' && c[0] != '-'
    ensures ParsePid(a + ['\t'] + c, pid) == Call(-ENOENT, pid)
  {
    NumberAfterInnerTab(a, c);
    StrToULLOfNoDigits(['\t'], false, c, 0);
  }

  /** A tab, a numeral and a newline: the tab is the last one. */
  lemma TabbedNumeralLastTab(d: string)
    requires IsNumeral(d)
    ensures LastTab(['\t'] + d + ['\n']) == Some(0)
  {
    NumeralLine(d);
    LastTabBetween([], d + ['\n']);
    assert [] + ['\t'] + (d + ['\n']) == ['\t'] + d + ['\n'];
  }

  /** A tab, a numeral and a newline convert to the numeral's value. */
  lemma TabbedNumeralConversion(d: string)
    requires IsNumeral(d)
    ensures StrToULL(['\t'] + d + ['\n'], 0) ==
            var n := DigitsValue(d, 10);
            if n <= ULLONG_MAX then Conversion(n, |d| + 1, false) else Conversion(ULLONG_MAX, |d| + 1, true)
  {
    var w := ['\t'] + d;
    StrToULLOfNumeral(['\t'], d, 0);
    assert Terminated(w + ['\n'], |w|) by {
      assert (w + ['\n'])[|w|] == '\n';
    }
    StrToULLStopsAtTerminator(w, ['\n'], 0);
  }

  /** A tab, a numeral and a newline: the number is the numeral's value,
      unless that does not fit 64 bits. */
  lemma NumberOfNumeral(d: string)
    requires IsNumeral(d)
    ensures NumberAfterLastTab(['\t'] + d + ['\n']) ==
            var v := DigitsValue(d, 10);
            if v <= ULLONG_MAX then Some(v) else None
  {
    var v := ['\t'] + d + ['\n'];
    TabbedNumeralLastTab(d);
    TabbedNumeralConversion(d);
    assert v[0..] == v;
  }

  /** A tab, the numeral of `n` and a newline: `parse_pid` stores `n` cast
      to `pid_t`, or rejects a value beyond 64 bits. */
  lemma ParsePidOfNumeral(n: nat, pid: Option<PidT>)
    ensures NUL !in ['\t'] + DecimalString(n) + ['\n']
    ensures ParsePid(['\t'] + DecimalString(n) + ['\n'], pid) ==
            if n <= ULLONG_MAX then Call(0, Store(pid, ToPidT(n))) else Call(-ENOENT, pid)
  {
    var d := DecimalString(n);
    NumeralLine(d);
    assert ['\t'] + d + ['\n'] == ['\t'] + (d + ['\n']);
    NumberOfNumeral(d);
    DecimalStringValue(n);
  }

  /** An "NSpid" value as the kernel writes it, with its newline, yields
      the last PID of the list, the one in the innermost namespace, cast to
      `pid_t`; a PID beyond 64 bits is an overflow and is rejected. */
  lemma ParsePidOfNSpidValue(pids: seq<nat>, pid: Option<PidT>)
    requires pids != []
    ensures ParsePid(NSpidValue(pids) + ['\n'], pid) ==
            var last := pids[|pids| - 1];
            if last <= ULLONG_MAX then Call(0, Store(pid, ToPidT(last))) else Call(-ENOENT, pid)
  {
    var last := pids[|pids| - 1];
    var front := NSpidValue(pids[..|pids| - 1]);
    var c := DecimalString(last) + ['\n'];
    NSpidValueSplit(pids);
    NumeralLine(DecimalString(last));
    ParsePidReadsAfterLastTab(front, c, pid);
    ParsePidOfNumeral(last, pid);
  }

  /** The last PID of an "NSpid" value follows its last tab. */
  lemma NSpidValueSplit(pids: seq<nat>)
    requires pids != []
    ensures NSpidValue(pids) + ['\n'] == NSpidValue(pids[..|pids| - 1]) + ['\t'] + (DecimalString(pids[|pids| - 1]) + ['\n'])
    ensures ['\t'] + (DecimalString(pids[|pids| - 1]) + ['\n']) == ['\t'] + DecimalString(pids[|pids| - 1]) + ['\n']
  {
    var d := DecimalString(pids[|pids| - 1]);
    var f := NSpidValue(pids[..|pids| - 1]);
    assert NSpidValue(pids) == f + ['\t'] + d;
    Regroup(f, d);
  }

  /** Regrouping the text around a tab and a newline. */
  lemma Regroup(f: string, d: string)
    ensures f + ['\t'] + d + ['\n'] == f + ['\t'] + (d + ['\n'])
    ensures ['\t'] + (d + ['\n']) == ['\t'] + d + ['\n']
  {
  }

  /** A successful `parse_pid` stores the same value whatever `*pid` held. */
  lemma ParsePidOverwrites(val: string, p1: PidT, p2: PidT)
    requires NUL !in val
    ensures ParsePid(val, Some(p1)).rc == ParsePid(val, Some(p2)).rc
    ensures ParsePid(val, Some(p1)).rc == 0 ==> ParsePid(val, Some(p1)).out == ParsePid(val, Some(p2)).out
  {
  }

  /** A key written before ':' still starts with "NSpid" exactly when the
      key does. */
  lemma NSpidKeyWithColon(key: string)
    ensures IsNSpidKey(key + [':']) == IsNSpidKey(key)
  {
    if |key| >= 5 {
      assert (key + [':'])[..5] == key[..5];
    } else if |key| == 4 {
      assert (key + [':'])[..5][4] == ':';
    }
  }

  /** `map_pid` reads one well-formed line as its key and value: a value
      under a key that does not start with "NSpid" is skipped; an "NSpid"
      value goes to `parse_pid`, whose failure ends the loop. */
  lemma MapLoopReadsLine(l: StatusLine, rest: string, out: Option<PidT>)
    requires WellFormed(l)
    ensures MapLoop(l.key + [':'] + l.value + ['\n'] + rest, out) ==
            if !IsNSpidKey(l.key) then MapLoop(rest, out)
            else
              var c := ParsePid(CString(l.value + ['\n']), out);
              if c.rc == 0 then MapLoop(rest, c.out) else c
  {
    var tail := l.value + ['\n'] + rest;
    assert l.key + [':'] + l.value + ['\n'] + rest == l.key + [':'] + tail;
    GetDelimReadsToken(l.key, ':', tail);
    GetDelimReadsToken(l.value, '\n', rest);
    NSpidKeyWithColon(l.key);
  }

  lemma RenderAppend(a: seq<StatusLine>, b: seq<StatusLine>)
    ensures Render(a + b) == Render(a) + Render(b)
  {
    if a != [] {
      assert (a + b)[1..] == a[1..] + b;
      RenderAppend(a[1..], b);
    } else {
      assert a + b == b;
    }
  }

  /** The first rendered line, followed by the others and more text. */
  lemma RenderFirst(lines: seq<StatusLine>, rest: string)
    requires lines != []
    ensures Render(lines) == lines[0].key + [':'] + lines[0].value + ['\n'] + Render(lines[1..])
    ensures Render(lines) + rest ==
            lines[0].key + [':'] + lines[0].value + ['\n'] + (Render(lines[1..]) + rest)
  {
  }

  /** The effect of one loop iteration on `r` and `*out` for a line. */
  function ReadLine(l: StatusLine, out: Option<PidT>): Call {
    if IsNSpidKey(l.key) then ParsePid(CString(l.value + ['\n']), out) else Call(0, out)
  }

  /** The loop reads the first of the rendered lines, then goes on with the
      others and the text after them. */
  lemma MapLoopReadsFirst(lines: seq<StatusLine>, rest: string, out: Option<PidT>)
    requires lines != [] && WellFormed(lines[0])
    ensures MapLoop(Render(lines) + rest, out) ==
            var c := ReadLine(lines[0], out);
            if c.rc == 0 then MapLoop(Render(lines[1..]) + rest, c.out) else c
  {
    RenderFirst(lines, rest);
    MapLoopReadsLine(lines[0], Render(lines[1..]) + rest, out);
  }

  /** Reading rendered lines and then more text is the fold over the lines
      followed by the fold over the rest, unless a line ended the loop. */
  lemma {:induction false} MapLoopAppend(lines: seq<StatusLine>, rest: string, out: Option<PidT>)
    requires forall i | 0 <= i < |lines| :: WellFormed(lines[i])
    ensures MapLoop(Render(lines) + rest, out) ==
            var c := MapLoop(Render(lines), out);
            if c.rc == 0 then MapLoop(rest, c.out) else c
    decreases |lines|
  {
    if lines == [] {
      assert Render(lines) + rest == rest;
    } else {
      var c := ReadLine(lines[0], out);
      MapLoopReadsFirst(lines, rest, out);
      MapLoopReadsFirst(lines, [], out);
      assert Render(lines) + [] == Render(lines);
      assert Render(lines[1..]) + [] == Render(lines[1..]);
      if c.rc == 0 {
        MapLoopAppend(lines[1..], rest, c.out);
      }
    }
  }

  /** Lines under keys other than "NSpid..." change neither `*out` nor the
      outcome. */
  lemma {:induction false} MapLoopSkipsOtherKeys(lines: seq<StatusLine>, rest: string, out: Option<PidT>)
    requires forall i | 0 <= i < |lines| :: WellFormed(lines[i]) && !IsNSpidKey(lines[i].key)
    ensures MapLoop(Render(lines) + rest, out) == MapLoop(rest, out)
    decreases |lines|
  {
    if lines != [] {
      var l := lines[0];
      assert Render(lines) + rest == l.key + [':'] + l.value + ['\n'] + (Render(lines[1..]) + rest);
      MapLoopReadsLine(l, Render(lines[1..]) + rest, out);
      MapLoopSkipsOtherKeys(lines[1..], rest, out);
    } else {
      assert Render(lines) + rest == rest;
    }
  }

  /** The first "NSpid" value that fails to parse ends the loop with
      `-ENOENT`; nothing after it is read and `*out` keeps its value. */
  lemma MapLoopStopsAtBadValue(l: StatusLine, rest: string, out: Option<PidT>)
    requires WellFormed(l) && IsNSpidKey(l.key)
    requires ParsePid(CString(l.value + ['\n']), out).rc != 0
    ensures MapLoop(l.key + [':'] + l.value + ['\n'] + rest, out) == Call(-ENOENT, out)
  {
    MapLoopReadsLine(l, rest, out);
  }

  /** When several "NSpid" values parse, the last one is what `*out` holds:
      the loop does not stop after the first. */
  lemma MapLoopLastValueWins(lines: seq<StatusLine>, l: StatusLine, p: PidT)
    requires forall i | 0 <= i < |lines| :: WellFormed(lines[i])
    requires WellFormed(l) && IsNSpidKey(l.key)
    requires MapLoop(Render(lines), Some(p)).rc == 0
    requires ParsePid(CString(l.value + ['\n']), Some(p)).rc == 0
    ensures MapLoop(Render(lines + [l]), Some(p)) == Call(0, ParsePid(CString(l.value + ['\n']), Some(p)).out)
  {
    RenderAppend(lines, [l]);
    MapLoopAppend(lines, Render([l]), Some(p));
    var q := MapLoop(Render(lines), Some(p)).out;
    assert Render([l]) == l.key + [':'] + l.value + ['\n'] + [];
    MapLoopReadsLine(l, [], q);
    ParsePidOverwrites(CString(l.value + ['\n']), p, q.value);
  }

  /** One "NSpid" line as the kernel writes it, then more text. */
  lemma MapLoopReadsNSpidLine(pids: seq<nat>, rest: string, out: Option<PidT>)
    requires pids != []
    ensures var l := StatusLine("NSpid", NSpidValue(pids));
            MapLoop(l.key + [':'] + l.value + ['\n'] + rest, out) ==
            var last := pids[|pids| - 1];
            if last <= ULLONG_MAX then MapLoop(rest, Store(out, ToPidT(last))) else Call(-ENOENT, out)
  {
    var l := StatusLine("NSpid", NSpidValue(pids));
    MapLoopReadsLine(l, rest, out);
    CStringOfPlainText(l.value + ['\n']);
    ParsePidOfNSpidValue(pids, out);
  }

  /** A status file with one "NSpid" line among lines with other keys: the
      PID of the innermost namespace ends up in `*out`. */
  lemma MapLoopOfStatus(before: seq<StatusLine>, pids: seq<nat>, after: seq<StatusLine>, out: Option<PidT>)
    requires pids != []
    requires forall i | 0 <= i < |before| :: WellFormed(before[i]) && !IsNSpidKey(before[i].key)
    requires forall i | 0 <= i < |after| :: WellFormed(after[i]) && !IsNSpidKey(after[i].key)
    ensures MapLoop(Render(before + [StatusLine("NSpid", NSpidValue(pids))] + after), out) ==
            var last := pids[|pids| - 1];
            if last <= ULLONG_MAX then Call(0, Store(out, ToPidT(last))) else Call(-ENOENT, out)
  {
    var l := StatusLine("NSpid", NSpidValue(pids));
    var line := l.key + [':'] + l.value + ['\n'];
    var tail := Render(after);
    var last := pids[|pids| - 1];
    var expected := if last <= ULLONG_MAX then Call(0, Store(out, ToPidT(last))) else Call(-ENOENT, out);
    assert Render(before + [l] + after) == Render(before) + (line + tail) by {
      RenderAround(before, l, after);
    }
    assert MapLoop(Render(before) + (line + tail), out) == MapLoop(line + tail, out) by {
      MapLoopSkipsOtherKeys(before, line + tail, out);
    }
    assert MapLoop(line + tail, out) == expected by {
      MapLoopReadsNSpidLine(pids, tail, out);
      if last <= ULLONG_MAX {
        MapLoopOtherKeysOnly(after, Store(out, ToPidT(last)));
      }
    }
  }

  /** The text of the lines around one line `l`. */
  lemma RenderAround(before: seq<StatusLine>, l: StatusLine, after: seq<StatusLine>)
    ensures Render(before + [l] + after) == Render(before) + (l.key + [':'] + l.value + ['\n'] + Render(after))
  {
    RenderAppend(before + [l], after);
    RenderAppend(before, [l]);
    assert Render([l]) == l.key + [':'] + l.value + ['\n'];
  }

  /** A status text without "NSpid" keys leaves `*out` alone and ends the
      loop without an error. */
  lemma MapLoopOtherKeysOnly(lines: seq<StatusLine>, out: Option<PidT>)
    requires forall i | 0 <= i < |lines| :: WellFormed(lines[i]) && !IsNSpidKey(lines[i].key)
    ensures MapLoop(Render(lines), out) == Call(0, out)
  {
    assert Render(lines) + [] == Render(lines);
    MapLoopSkipsOtherKeys(lines, [], out);
  }

  /** A tail without ':' ends the loop: the first `getdelim` takes all of
      it, the second finds the stream empty, and `r` and `*out` stay. */
  lemma MapLoopReadsKeyless(t: string, out: Option<PidT>)
    requires ':' !in t
    ensures MapLoop(t, out) == Call(0, out)
  {
    if t != [] {
      GetDelimReadsAll(t, ':');
    }
  }

  /** A last "key:value" without a newline is still read: `getdelim`
      returns the value up to the end of the stream, and an "NSpid" key
      has it parsed. An empty value makes the second `getdelim` fail, so
      nothing is parsed. */
  lemma MapLoopReadsLastPair(key: string, value: string, out: Option<PidT>)
    requires ':' !in key && '\n' !in value
    ensures MapLoop(key + [':'] + value, out) ==
            if value != [] && IsNSpidKey(key) then ParsePid(CString(value), out) else Call(0, out)
  {
    GetDelimReadsToken(key, ':', value);
    if value != [] {
      GetDelimReadsAll(value, '\n');
    }
    NSpidKeyWithColon(key);
  }

  /** Any status text is read as its complete lines and then its tail:
      the fold over the lines, followed by the tail from the state they
      leave unless a parse failed. */
  lemma MapLoopOfText(f: string, out: Option<PidT>)
    ensures var (lines, t) := SplitLines(f);
            var c := MapLoop(Render(lines), out);
            MapLoop(f, out) == if c.rc == 0 then MapLoop(t, c.out) else c
  {
    var (lines, t) := SplitLines(f);
    MapLoopAppend(lines, t, out);
  }
}
