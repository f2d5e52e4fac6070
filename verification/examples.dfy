/**
 Worked examples of the model on small inputs.
 */
module Examples {
  import opened CTypes
  import opened Strtoull
  import opened StatusParser
  import opened Pidmap

  /** "\t42\n" as white space, decimal digits and a terminator. */
  lemma DecimalPieces()
    ensures SignedLead(['\t'], false)
    ensures ['\t'] + "42" + "\n" == "\t42\n"
    ensures DigitsValue("42", 10) == 42
  {
    assert "42"[..1] == "4" && "4"[..0] == [];
  }

  /** Decimal digits after a tab, up to the newline. */
  lemma StrToULLDecimalExample()
    ensures StrToULL("\t42\n", 0) == Conversion(42, 3, false)
  {
    DecimalPieces();
    StrToULLOfDecimal(['\t'], false, "42", "\n", 0);
  }

  /** "\t0x1f" as white space, the prefix "0x" and hexadecimal digits. */
  lemma HexPieces()
    ensures SignedLead(['\t'], false)
    ensures forall i | 0 <= i < |"1f"| :: DigitValue("1f"[i]) < 16
    ensures ['\t'] + ['0', 'x'] + "1f" + [] == "\t0x1f"
    ensures DigitsValue("1f", 16) == 31
  {
    assert "1f"[..1] == "1" && "1"[..0] == [];
  }

  /** Base detection: "0x1f" is hexadecimal 31. */
  lemma StrToULLHexExample()
    ensures StrToULL("\t0x1f", 0) == Conversion(31, 5, false)
  {
    HexPieces();
    StrToULLOfHex(['\t'], false, 'x', "1f", []);
  }

  /** "\t017" as white space, a leading '0' and octal digits. */
  lemma OctalPieces()
    ensures SignedLead(['\t'], false)
    ensures forall i | 0 <= i < |"17"| :: DigitValue("17"[i]) < 8
    ensures ['\t'] + ['0'] + "17" + [] == "\t017"
    ensures DigitsValue("17", 8) == 15
  {
    assert "17"[..1] == "1" && "1"[..0] == [];
  }

  /** Base detection: "017" is octal 15. */
  lemma StrToULLOctalExample()
    ensures StrToULL("\t017", 0) == Conversion(15, 4, false)
  {
    OctalPieces();
    StrToULLOfOctal(['\t'], false, "17", []);
  }

  /** "\t-1\n" as white space and a minus sign, a digit and a terminator. */
  lemma NegativePieces()
    ensures SignedLead("\t-", true)
    ensures "\t-" + "1" + "\n" == "\t-1\n"
    ensures DigitsValue("1", 10) == 1
  {
    assert AllSpace("\t-"[..1]);
    assert "1"[..0] == [];
  }

  /** A minus sign negates modulo 2^64: "-1" is 2^64 - 1. */
  lemma StrToULLNegativeExample()
    ensures StrToULL("\t-1\n", 0) == Conversion(ULLONG_MAX, 3, false)
  {
    NegativePieces();
    StrToULLOfDecimal("\t-", true, "1", "\n", 0);
  }

  /** The stopping characters of the following examples, as digit values. */
  lemma StopPieces()
    ensures SignedLead(['\t'], false)
    ensures ['\t'] + "42" + "a" == "\t42a"
    ensures ['\t'] + ['0'] + "17" + "8" == "\t0178"
    ensures ['\t'] + ['0', 'x'] + "1f" + "g" == "\t0x1fg"
    ensures ['\t'] + ['0'] + [] + "xg" == "\t0xg"
    ensures DigitValue('a') == 10 && DigitValue('8') == 8 && DigitValue('g') == 16
    ensures DigitValue('x') == 33 && DigitsValue([], 8) == 0
  {
  }

  /** A letter ends decimal digits: "42a" is 42, ending at the 'a'. */
  lemma StrToULLStopsAtLetterExample()
    ensures StrToULL("\t42a", 0) == Conversion(42, 3, false)
  {
    DecimalPieces();
    StopPieces();
    StrToULLOfDecimal(['\t'], false, "42", "a", 0);
  }

  /** An '8' ends octal digits: "0178" is octal 15, ending at the '8'. */
  lemma StrToULLStopsAtEightExample()
    ensures StrToULL("\t0178", 0) == Conversion(15, 4, false)
  {
    OctalPieces();
    StopPieces();
    StrToULLOfOctal(['\t'], false, "17", "8");
  }

  /** A 'g' ends hexadecimal digits: "0x1fg" is 31, ending at the 'g'. */
  lemma StrToULLStopsAtGExample()
    ensures StrToULL("\t0x1fg", 0) == Conversion(31, 5, false)
  {
    HexPieces();
    StopPieces();
    StrToULLOfHex(['\t'], false, 'x', "1f", "g");
  }

  /** "0x" without a hexadecimal digit after it is the numeral "0",
      ending at the 'x'. */
  lemma StrToULLBareZeroExample()
    ensures StrToULL("\t0xg", 0) == Conversion(0, 2, false)
  {
    StopPieces();
    StrToULLOfOctal(['\t'], false, [], "xg");
  }

  /** The innermost of the nested PIDs 1, 2 and 42 is taken. */
  lemma ParsePidNestedExample()
    ensures ParsePid("\t1\t2\t42\n", Some(0)) == Call(0, Some(42))
  {
    var s := "\t1\t2\t42\n";
    assert LastTab(s) == Some(4);
    assert s[4..] == "\t42\n";
    StrToULLDecimalExample();
  }

  /** A hexadecimal PID is accepted. */
  lemma ParsePidHexExample()
    ensures ParsePid("\t0x1f", Some(0)) == Call(0, Some(31))
  {
    var s := "\t0x1f";
    assert LastTab(s) == Some(0);
    assert s[0..] == s;
    StrToULLHexExample();
  }

  /** An octal PID is accepted. */
  lemma ParsePidOctalExample()
    ensures ParsePid("\t017", Some(0)) == Call(0, Some(15))
  {
    var s := "\t017";
    assert LastTab(s) == Some(0);
    assert s[0..] == s;
    StrToULLOctalExample();
  }

  /** The cast to `pid_t` turns 2^64 - 1, read from "-1", into -1. */
  lemma ParsePidNegativeExample()
    ensures ParsePid("\t-1\n", Some(0)) == Call(0, Some(-1))
  {
    var s := "\t-1\n";
    assert LastTab(s) == Some(0);
    assert s[0..] == s;
    StrToULLNegativeExample();
  }

  /** Text with no digits after the last tab is rejected and `*pid` kept. */
  lemma ParsePidNonNumericExample()
    ensures ParsePid("\tn/a\n", Some(7)) == Call(-ENOENT, Some(7))
  {
    assert [] + ['\t'] + "n/a\n" == "\tn/a\n";
    ParsePidNoDigits([], "n/a\n", Some(7));
  }

  /** "NSpid:\t5" as key, ':' and a value holding a tab and one digit. */
  lemma LastPairPieces()
    ensures SignedLead(['\t'], false)
    ensures ['\t'] + "5" + [] == "\t5"
    ensures DigitsValue("5", 10) == 5
    ensures "NSpid" + [':'] + "\t5" == "NSpid:\t5"
  {
    assert "5"[..0] == [];
  }

  /** One decimal digit after a tab, at the end of the text. */
  lemma StrToULLOneDigitExample()
    ensures StrToULL("\t5", 0) == Conversion(5, 2, false)
  {
    LastPairPieces();
    StrToULLOfDecimal(['\t'], false, "5", [], 0);
  }

  /** A value that ends without a newline is parsed all the same. */
  lemma ParsePidUnterminatedExample()
    ensures ParsePid("\t5", Some(0)) == Call(0, Some(5))
  {
    var s := "\t5";
    assert LastTab(s) == Some(0);
    assert s[0..] == s;
    StrToULLOneDigitExample();
  }

  /** A last "NSpid" pair without a newline is still parsed. */
  lemma MapLoopLastPairExample()
    ensures MapLoop("NSpid:\t5", Some(0)) == Call(0, Some(5))
  {
    var v := "\t5";
    LastPairPieces();
    assert CString(v) == v by {
      assert forall k | 0 <= k < |v| :: v[k] != NUL;
      CStringOfPlainText(v);
    }
    assert IsNSpidKey("NSpid");
    MapLoopReadsLastPair("NSpid", v, Some(0));
    ParsePidUnterminatedExample();
  }

  /** Without a namespace argument, or with one holding no digits, `main`
      exits with -1. */
  lemma ParseTargetRejectionExamples()
    ensures ParseTarget(["pidmap"]) == None
    ensures ParseTarget(["pidmap", "pid"]) == None
  {
    var a := "pid";
    assert CString(a) == a by {
      assert forall k | 0 <= k < |a| :: a[k] != NUL;
      CStringOfPlainText(a);
    }
    assert SubjectStart(a) == 0 by {
      SkipSpaceOver(a, 0);
    }
    assert DigitsStart(a, 0, 10) == (0, 10);
    assert DigitRun(a, 0, 10) == 0;
  }

  /** A decimal namespace inode is read back. */
  lemma ParseTargetExample()
    ensures ParseTarget(["pidmap", "17"]) == Some(17)
  {
    var d := "17";
    assert CString(d) == d by {
      assert forall k | 0 <= k < |d| :: d[k] != NUL;
      CStringOfPlainText(d);
    }
    assert SubjectStart(d) == 0 && !Negative(d) by {
      SkipSpaceOver(d, 0);
    }
    assert DigitsStart(d, 0, 10) == (0, 10);
    assert DigitRun(d, 0, 10) == 2;
    assert DigitsValue(d[0..2], 10) == 17 by {
      assert d[0..2] == d && d[..1] == "1" && "1"[..0] == [];
    }
    assert StrToULL(d, 10) == Conversion(17, 2, false);
  }

  /** The process "7" of the scan below, in namespace 9 with PIDs 7 and
      3, prints 3. */
  lemma ScanExampleReport()
    ensures var uid := StatusLine("Uid", "\t0\t1000");
            var l := StatusLine("NSpid", NSpidValue([7, 3]));
            ReportOf(Entry("7", Some(9), Some(Render([l, uid])))) == Report("7", Some(3))
  {
    var uid := StatusLine("Uid", "\t0\t1000");
    var l := StatusLine("NSpid", NSpidValue([7, 3]));
    assert WellFormed(uid) && !IsNSpidKey(uid.key);
    assert [] + [l] + [uid] == [l, uid];
    ReportOfStatus("7", 9, [], [7, 3], [uid]);
  }

  /** A /proc with two processes in different namespaces, one entry that
      is not a process (`cpuinfo`, a file, so "cpuinfo/ns/pid" cannot be
      stat'ed), and one process whose status cannot be opened: only
      the processes in namespace 9 are printed, the first with its PID as
      seen inside that namespace. */
  lemma ScanExample()
    ensures var uid := StatusLine("Uid", "\t0\t1000");
            var entries := [
              Entry("1", Some(5), Some(Render([StatusLine("NSpid", NSpidValue([1])), uid]))),
              Entry("7", Some(9), Some(Render([StatusLine("NSpid", NSpidValue([7, 3])), uid]))),
              Entry("cpuinfo", None, None),
              Entry("9", Some(9), None)];
            Scan(entries, 9) == [Report("7", Some(3)), Report("9", None)]
  {
    var uid := StatusLine("Uid", "\t0\t1000");
    var l := StatusLine("NSpid", NSpidValue([7, 3]));
    var e1 := Entry("1", Some(5), Some(Render([StatusLine("NSpid", NSpidValue([1])), uid])));
    var e7 := Entry("7", Some(9), Some(Render([l, uid])));
    var es := Entry("cpuinfo", None, None);
    var e9 := Entry("9", Some(9), None);
    ScanExampleReport();
    assert Scan([e9], 9) == [Report("9", None)];
    assert Scan([es, e9], 9) == [Report("9", None)] by {
      assert [es, e9][1..] == [e9];
    }
    assert Scan([e7, es, e9], 9) == [Report("7", Some(3)), Report("9", None)] by {
      assert [e7, es, e9][1..] == [es, e9];
    }
    assert [e1, e7, es, e9][1..] == [e7, es, e9];
  }
}
