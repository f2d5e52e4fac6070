/**
 The `main` function of the pidmap tool: it reads the inode number of a PID
 namespace from its first argument, walks the entries of /proc, and for
 every process whose `ns/pid` link has that inode prints its name and, when
 its `status` file opens, the PID that `map_pid` leaves in `mapped`.

 The file system is abstracted into a sequence of entries in `readdir`
 order, each with the outcome of `fstatat` on "<name>/ns/pid" and of
 `openat` plus reading "<name>/status".
 */
module Pidmap {
  import opened CTypes
  import opened Strtoull
  import opened StatusParser

  /** One entry of /proc: its name, the inode number of its `ns/pid` link
      (`None` when `fstatat` fails), and the text of its `status` file
      (`None` when `openat` fails). */
  datatype Entry = Entry(name: string, nsIno: Option<UInt64>, status: Option<string>)

  /** What `main` prints for one entry in the namespace: the name line, and
      the mapped PID line unless the status file could not be opened. */
  datatype Report = Report(name: string, mapped: Option<UInt64>)

  /** The namespace inode `strtoull(argv[1], &end, 10)` reads, or `None`
      when `main` gives up: fewer than two arguments, no digits, or a value
      beyond 64 bits. */
  function ParseTarget(argv: seq<string>): (r: Option<UInt64>)
    ensures |argv| < 2 ==> r.None?
    ensures r.Some? ==> exists k | 0 <= k < |argv[1]| :: '0' <= argv[1][k] <= '9'
  {
    if |argv| < 2 then None
    else
      var arg := CString(argv[1]);
      var c := StrToULL(arg, 10);
      if c.end == 0 || c.erange then None
      else
        assert arg[c.end - 1] == argv[1][c.end - 1];
        Some(c.value)
  }

  /** The value of `mapped` after `map_pid(fd, &mapped)` on a status text,
      as printed with `%lu`: a 32-bit `pid_t` widened to 64 bits, so either
      a non-negative PID or a negative one wrapped to the top of the range. */
  function MappedPid(text: string): (m: UInt64)
    ensures m < 0x8000_0000 || TWO64 - 0x8000_0000 <= m
  {
    var call := MapLoop(text, Some(0));
    ToULong(call.out.value)
  }

  /** The report of one entry whose namespace matched. */
  function ReportOf(e: Entry): (r: Report)
    ensures r.name == e.name
    ensures r.mapped.None? <==> e.status.None?
  {
    match e.status
    case None => Report(e.name, None)
    case Some(text) => Report(e.name, Some(MappedPid(text)))
  }

  /** The reports of the `readdir` loop, in directory order: one for every
      entry whose `ns/pid` inode is `target`. */
  function Scan(entries: seq<Entry>, target: UInt64): (r: seq<Report>)
    ensures |r| <= |entries|
  {
    if entries == [] then []
    else
      var head := if entries[0].nsIno == Some(target) then [ReportOf(entries[0])] else [];
      head + Scan(entries[1..], target)
  }

  /** `main` statement by statement: its return value `status` and the
      reports it prints. */
  method RunMain(argv: seq<string>, entries: seq<Entry>) returns (status: int, reports: seq<Report>)
    ensures status == 0 || status == -1
    ensures status == -1 <==> ParseTarget(argv).None?
    ensures status == -1 ==> reports == []
    ensures status == 0 ==> reports == Scan(entries, ParseTarget(argv).value)
  {
    reports := [];
    if |argv| < 2 {
      return -1, [];
    }
    var c := StrToULL(CString(argv[1]), 10);
    if c.end == 0 || c.erange {
      return -1, [];
    }
    var pidns: UInt64 := c.value;
    var i := 0;
    while i < |entries|
      invariant i <= |entries|
      invariant reports == Scan(entries[..i], pidns)
    {
      var de := entries[i];
      assert entries[..i + 1] == entries[..i] + [de];
      ScanAppend(entries[..i], [de], pidns);
      if de.nsIno.Some? && de.nsIno.value == pidns {
        if de.status.Some? {
          var mapped: Option<PidT> := Some(0);
          var r;
          r, mapped := MapPid(de.status.value, mapped);
          reports := reports + [Report(de.name, Some(ToULong(mapped.value)))];
        } else {
          reports := reports + [Report(de.name, None)];
        }
      }
      i := i + 1;
    }
    assert entries[..i] == entries;
    status := 0;
  }

  /** The scan of two runs of entries is the scan of the first followed by
      the scan of the second: directory order is kept. */
  lemma {:induction false} ScanAppend(a: seq<Entry>, b: seq<Entry>, target: UInt64)
    ensures Scan(a + b, target) == Scan(a, target) + Scan(b, target)
    decreases |a|
  {
    if a != [] {
      assert (a + b)[0] == a[0] && (a + b)[1..] == a[1..] + b;
      ScanAppend(a[1..], b, target);
      var head := if a[0].nsIno == Some(target) then [ReportOf(a[0])] else [];
      assert Scan(a + b, target) == head + Scan(a[1..] + b, target);
      assert Scan(a, target) == head + Scan(a[1..], target);
    } else {
      assert a + b == b;
    }
  }

  /** A report is printed exactly when some entry in the namespace yields it. */
  lemma {:induction false} ScanReports(entries: seq<Entry>, target: UInt64, r: Report)
    ensures r in Scan(entries, target) <==>
            exists j | 0 <= j < |entries| :: entries[j].nsIno == Some(target) && ReportOf(entries[j]) == r
    decreases |entries|
  {
    if entries != [] {
      ScanReports(entries[1..], target, r);
      if exists j | 0 <= j < |entries| :: entries[j].nsIno == Some(target) && ReportOf(entries[j]) == r {
        var j :| 0 <= j < |entries| && entries[j].nsIno == Some(target) && ReportOf(entries[j]) == r;
        if j > 0 {
          assert entries[1..][j - 1] == entries[j];
        }
      }
      if r in Scan(entries[1..], target) {
        var j :| 0 <= j < |entries[1..]| && entries[1..][j].nsIno == Some(target) && ReportOf(entries[1..][j]) == r;
        assert entries[j + 1] == entries[1..][j];
      }
    }
  }

  /** Entries outside the namespace print nothing. */
  lemma {:induction false} ScanSkipsOtherNamespaces(entries: seq<Entry>, target: UInt64)
    requires forall j | 0 <= j < |entries| :: entries[j].nsIno != Some(target)
    ensures Scan(entries, target) == []
    decreases |entries|
  {
    if entries != [] {
      assert forall j | 0 <= j < |entries[1..]| :: entries[1..][j] == entries[j + 1];
      ScanSkipsOtherNamespaces(entries[1..], target);
    }
  }

  /** For a process in the namespace whose status file has one "NSpid"
      line among lines with other keys, the printed PID is the one in the
      innermost namespace; it reads 0 when that PID does not fit 64 bits,
      as `mapped` then keeps its initial value. */
  lemma ReportOfStatus(name: string, ino: UInt64, before: seq<StatusLine>, pids: seq<nat>, after: seq<StatusLine>)
    requires pids != []
    requires forall i | 0 <= i < |before| :: WellFormed(before[i]) && !IsNSpidKey(before[i].key)
    requires forall i | 0 <= i < |after| :: WellFormed(after[i]) && !IsNSpidKey(after[i].key)
    ensures var text := Render(before + [StatusLine("NSpid", NSpidValue(pids))] + after);
            var last := pids[|pids| - 1];
            ReportOf(Entry(name, Some(ino), Some(text))) ==
            Report(name, Some(if last <= ULLONG_MAX then ToULong(ToPidT(last)) else 0))
  {
    var text := Render(before + [StatusLine("NSpid", NSpidValue(pids))] + after);
    var last := pids[|pids| - 1];
    MapLoopOfStatus(before, pids, after, Some(0));
    ReportOfMapped(name, ino, text, if last <= ULLONG_MAX then ToPidT(last) else 0);
  }

  /** An entry whose status text leaves `mapped` at `v` prints `v` as
      unsigned long. */
  lemma ReportOfMapped(name: string, ino: UInt64, text: string, v: PidT)
    requires MapLoop(text, Some(0)).out == Some(v)
    ensures ReportOf(Entry(name, Some(ino), Some(text))) == Report(name, Some(ToULong(v)))
  {
  }

  /** The decimal numeral of a 64-bit value as first argument is read back
      as that value; a numeral beyond 64 bits is refused. */
  lemma ParseTargetOfNumeral(prog: string, n: nat, more: seq<string>)
    ensures ParseTarget([prog, DecimalString(n)] + more) == if n <= ULLONG_MAX then Some(n) else None
  {
    var argv := [prog, DecimalString(n)] + more;
    var d := DecimalString(n);
    assert argv[1] == d;
    assert NUL !in d by {
      assert forall k | 0 <= k < |d| :: d[k] != NUL;
    }
    CStringOfPlainText(d);
    StrToULLOfNumeral([], d, 10);
    assert [] + d == d;
    DecimalStringValue(n);
  }
}
