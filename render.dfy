/** The diagnostic strings of the protocol engine: errorText, noticeTypeToName, printableMsgTypeIn, isPrintable. */
module Render {
  import opened Wrappers
  import opened Wire
  import opened Messages

  predicate IsDigit(c: char)
  {
    '0' <= c <= '9'
  }

  predicate AllDigits(s: string)
  {
    forall i :: 0 <= i < |s| ==> IsDigit(s[i])
  }

  function DigitChar(d: nat): (c: char)
    requires d < 10
    ensures IsDigit(c)
  {
    ('0' as int + d) as char
  }

  /** fmt's %d of a non-negative integer: no leading zero except for 0 itself. */
  function Decimal(n: nat): (s: string)
    ensures |s| >= 1 && AllDigits(s)
    ensures s[0] == '0' <==> n == 0
  {
    if n < 10 then [DigitChar(n)] else Decimal(n / 10) + [DigitChar(n % 10)]
  }

  function Pow10(k: nat): (p: nat)
    ensures p >= 1
  {
    if k == 0 then 1 else 10 * Pow10(k - 1)
  }

  /** %d of n takes at most k digits exactly when n is below 10^k. */
  lemma {:induction false} DecimalWidth(n: nat, k: nat)
    requires k >= 1
    ensures |Decimal(n)| <= k <==> n < Pow10(k)
  {
    if n >= 10 {
      if k == 1 {
        assert Pow10(1) == 10;
      } else {
        DecimalWidth(n / 10, k - 1);
        assert n / 10 < Pow10(k - 1) <==> n < 10 * Pow10(k - 1);
      }
    } else if k > 1 {
      PowAtLeastTen(k);
    }
  }

  lemma {:induction false} PowAtLeastTen(k: nat)
    requires k >= 1
    ensures Pow10(k) >= 10
  {
    if k > 1 {
      PowAtLeastTen(k - 1);
    }
  }

  /** Reading a run of decimal digits back, most significant first. */
  function DigitsValue(s: string): nat
    requires AllDigits(s)
  {
    if s == [] then 0 else 10 * DigitsValue(s[..|s| - 1]) + (s[|s| - 1] as int - '0' as int)
  }

  lemma {:induction false} DecimalValue(n: nat)
    ensures DigitsValue(Decimal(n)) == n
  {
    if n >= 10 {
      var s := Decimal(n);
      assert s[..|s| - 1] == Decimal(n / 10);
      DecimalValue(n / 10);
    }
  }

  function Zeros(k: nat): (s: string)
    ensures |s| == k && AllDigits(s)
  {
    seq(k, _ => '0')
  }

  /** Leading zeros do not change the value of a digit string. */
  lemma {:induction false} LeadingZeros(k: nat, s: string)
    requires AllDigits(s)
    ensures DigitsValue(Zeros(k) + s) == DigitsValue(s)
    decreases |s|, k
  {
    if s == [] {
      assert Zeros(k) + s == Zeros(k);
      if k > 0 {
        assert Zeros(k)[..k - 1] == Zeros(k - 1);
        LeadingZeros(k - 1, []);
        assert Zeros(k - 1) + [] == Zeros(k - 1);
      }
    } else {
      var t := Zeros(k) + s;
      assert t[..|t| - 1] == Zeros(k) + s[..|s| - 1];
      LeadingZeros(k, s[..|s| - 1]);
    }
  }

  /** fmt's %04d: the decimal digits, zero-padded on the left to at least four. */
  function ZeroPad4(n: nat): (s: string)
    ensures AllDigits(s)
    ensures |s| == if |Decimal(n)| < 4 then 4 else |Decimal(n)|
  {
    var d := Decimal(n);
    if |d| < 4 then Zeros(4 - |d|) + d else d
  }

  /** %04d reads back as the number it rendered. */
  lemma ZeroPad4Value(n: nat)
    ensures DigitsValue(ZeroPad4(n)) == n
  {
    DecimalValue(n);
    var d := Decimal(n);
    if |d| < 4 {
      LeadingZeros(4 - |d|, d);
    }
  }

  /** fmt's %v of *Mysqlx.Error_Severity: the enum name, "<nil>" when the field is absent. */
  function SeverityText(s: Option<Severity>): string
  {
    match s
    case None => "<nil>"
    case Some(SeverityError) => "ERROR"
    case Some(SeverityFatal) => "FATAL"
  }

  /** errorText: "severity: %04d [sqlstate] msg", or a fixed text for a nil error. */
  function ErrorText(e: Option<ErrorMessage>): (t: string)
    ensures e.Some? ==> |t| == |SeverityText(e.value.severity)| + |ZeroPad4(e.value.code)| + |e.value.sqlState| + |e.value.msg| + 6
  {
    match e
    case None => "errorText: ERROR e == nil"
    case Some(m) => SeverityText(m.severity) + ": " + ZeroPad4(m.code) + " [" + m.sqlState + "] " + m.msg
  }

  /**
   * The rendered error splits back into its four fields: the severity, the code
   * as at least four digits that read back as the code, the SQL state in
   * brackets, then the message.
   */
  lemma ErrorTextFields(m: ErrorMessage)
    ensures var t, sev, code := ErrorText(Some(m)), SeverityText(m.severity), ZeroPad4(m.code);
      var k := |sev| + 2 + |code|;
      |code| >= 4 && |t| == k + 2 + |m.sqlState| + 2 + |m.msg| &&
      t[..|sev|] == sev && t[|sev|..|sev| + 2] == ": " &&
      AllDigits(t[|sev| + 2..k]) && DigitsValue(t[|sev| + 2..k]) == m.code &&
      t[k..k + 2] == " [" && t[k + 2..k + 2 + |m.sqlState|] == m.sqlState &&
      t[k + 2 + |m.sqlState|..k + 4 + |m.sqlState|] == "] " &&
      t[k + 4 + |m.sqlState|..] == m.msg
  {
    var t, sev, code := ErrorText(Some(m)), SeverityText(m.severity), ZeroPad4(m.code);
    var p1 := sev + ": ";
    var p2 := p1 + code;
    var p3 := p2 + " [";
    var p4 := p3 + m.sqlState;
    var p5 := p4 + "] ";
    assert t == p5 + m.msg;
    var a, b, c, d := |sev|, |p1|, |p2|, |p3|;
    SliceOfPrefix(p5, m.msg, |p4|, |p5|);
    SliceOfPrefix(p5, m.msg, d, |p4|);
    SliceOfPrefix(p4, "] ", d, |p4|);
    SliceOfPrefix(p5, m.msg, c, d);
    SliceOfPrefix(p4, "] ", c, d);
    SliceOfPrefix(p3, m.sqlState, c, d);
    SliceOfPrefix(p5, m.msg, b, c);
    SliceOfPrefix(p4, "] ", b, c);
    SliceOfPrefix(p3, m.sqlState, b, c);
    SliceOfPrefix(p2, " [", b, c);
    SliceOfPrefix(p5, m.msg, a, b);
    SliceOfPrefix(p4, "] ", a, b);
    SliceOfPrefix(p3, m.sqlState, a, b);
    SliceOfPrefix(p2, " [", a, b);
    SliceOfPrefix(p1, code, a, b);
    SliceOfPrefix(p5, m.msg, 0, a);
    SliceOfPrefix(p4, "] ", 0, a);
    SliceOfPrefix(p3, m.sqlState, 0, a);
    SliceOfPrefix(p2, " [", 0, a);
    SliceOfPrefix(p1, code, 0, a);
    SliceOfPrefix(sev, ": ", 0, a);
    ZeroPad4Value(m.code);
  }

  /** A slice inside the first part of a concatenation is a slice of that part. */
  lemma SliceOfPrefix(x: string, y: string, i: nat, j: nat)
    requires i <= j <= |x|
    ensures (x + y)[i..j] == x[i..j]
  {
  }

  lemma Decimal1045()
    ensures ZeroPad4(1045) == "1045"
  {
    assert Decimal(10) == Decimal(1) + ['0'];
    assert Decimal(104) == Decimal(10) + ['4'];
    assert Decimal(1045) == Decimal(104) + ['5'];
  }

  /** An access-denied error (code 1045, state HY000) renders with the code unpadded, then the message verbatim. */
  lemma ErrorTextAccessDenied(msg: string)
    ensures ErrorText(Some(ErrorMessage(Some(SeverityError), 1045, "HY000", msg))) == "ERROR: 1045 [HY000] " + msg
  {
    Decimal1045();
  }

  /** %04d is exactly four digits below 10000, and is %d itself, unpadded and untruncated, from 1000 on. */
  lemma ZeroPad4Width(n: nat)
    ensures n < 10000 <==> |ZeroPad4(n)| == 4
    ensures n < 1000 ==> ZeroPad4(n)[0] == '0'
    ensures n >= 1000 ==> ZeroPad4(n) == Decimal(n)
  {
    DecimalWidth(n, 4);
    DecimalWidth(n, 3);
    assert Pow10(3) == 1000 && Pow10(4) == 10000;
  }

  /**
   * In errorText every code below 10000 takes exactly four characters after
   * the severity and ": ", leading zeros included, and a nil severity is "<nil>".
   */
  lemma ErrorTextPadsCode(m: ErrorMessage)
    requires m.code < 10000
    ensures var t, k := ErrorText(Some(m)), |SeverityText(m.severity)| + 2;
      t[k..k + 4] == ZeroPad4(m.code) && t[k + 4..k + 6] == " [" && DigitsValue(t[k..k + 4]) == m.code &&
      (m.code < 1000 ==> t[k] == '0')
    ensures m.severity.None? ==> ErrorText(Some(m))[..5] == "<nil>"
  {
    ZeroPad4Width(m.code);
    ErrorTextFields(m);
  }

  const NoticeTypeNames: map<nat, string> := map[1 := "Warning", 2 := "SessionVariableChanged", 3 := "SessionStateChanged"]

  /** noticeTypeToName: the table's name, "?" for any type not in it. */
  function NoticeTypeName(t: nat): (name: string)
    ensures name != "?" <==> 1 <= t <= 3
    ensures t == 1 ==> name == "Warning"
    ensures t == 2 ==> name == "SessionVariableChanged"
    ensures t == 3 ==> name == "SessionStateChanged"
  {
    if t in NoticeTypeNames then NoticeTypeNames[t] else "?"
  }

  /** Distinct notice types get distinct names. */
  lemma NoticeTypeNamesDistinct(t: nat, u: nat)
    requires t != u && NoticeTypeName(t) != "?"
    ensures NoticeTypeName(t) != NoticeTypeName(u)
  {
  }

  /** Mysqlx.ServerMessages_Type_name; Go's map lookup yields "" for any code not in it. */
  const ServerTypeNames: map<nat, string> := map[
    0 := "OK", 1 := "ERROR", 2 := "CONN_CAPABILITIES", 3 := "SESS_AUTHENTICATE_CONTINUE",
    4 := "SESS_AUTHENTICATE_OK", 11 := "NOTICE", 12 := "RESULTSET_COLUMN_META_DATA",
    13 := "RESULTSET_ROW", 14 := "RESULTSET_FETCH_DONE", 15 := "RESULTSET_FETCH_SUSPENDED",
    16 := "RESULTSET_FETCH_DONE_MORE_RESULTSETS", 17 := "SQL_STMT_EXECUTE_OK",
    18 := "RESULTSET_FETCH_DONE_MORE_OUT_PARAMS"]

  /** printableMsgTypeIn: "%d [%s]" of the code and its name. */
  function PrintableMsgTypeIn(t: nat): (s: string)
    ensures |s| >= 4 && s[|s| - 1] == ']'
  {
    Decimal(t) + " [" + (if t in ServerTypeNames then ServerTypeNames[t] else "") + "]"
  }

  /** The run of digits a string starts with. */
  function LeadingDigits(s: string): (d: string)
    ensures AllDigits(d) && |d| <= |s| && d == s[..|d|]
  {
    if s == [] || !IsDigit(s[0]) then [] else [s[0]] + LeadingDigits(s[1..])
  }

  lemma {:induction false} LeadingDigitsOf(d: string, rest: string)
    requires AllDigits(d) && (rest == [] || !IsDigit(rest[0]))
    ensures LeadingDigits(d + rest) == d
  {
    if d != [] {
      assert (d + rest)[1..] == d[1..] + rest;
      LeadingDigitsOf(d[1..], rest);
    }
  }

  /** The rendered message type reads back as its code: the leading digits are the code in decimal. */
  lemma PrintableMsgTypeInCode(t: nat)
    ensures var s := PrintableMsgTypeIn(t);
      LeadingDigits(s) == Decimal(t) && DigitsValue(LeadingDigits(s)) == t
  {
    var name := if t in ServerTypeNames then ServerTypeNames[t] else "";
    assert PrintableMsgTypeIn(t) == Decimal(t) + (" [" + name + "]");
    LeadingDigitsOf(Decimal(t), " [" + name + "]");
    DecimalValue(t);
  }

  /** Different codes never render alike. */
  lemma PrintableMsgTypeInInjective(t: nat, u: nat)
    ensures PrintableMsgTypeIn(t) == PrintableMsgTypeIn(u) ==> t == u
  {
    PrintableMsgTypeInCode(t);
    PrintableMsgTypeInCode(u);
  }

  /** isPrintable: scans the bytes and stops at the first outside 32..126, so it holds exactly when every byte is inside. */
  predicate IsPrintable(b: Bytes): (p: bool)
    ensures p <==> forall i :: 0 <= i < |b| ==> 32 <= b[i] <= 126
  {
    b == [] || (32 <= b[0] <= 126 && IsPrintable(b[1..]))
  }
}
