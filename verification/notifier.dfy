/** The notification text: the new dates in ascending order, each rendered
    YYYY-MM-DD on its own line after a fixed header. Ordering is Python's
    string order; the partner of the formatter is a reader that recovers the
    dates from the finished message. Delivery to the webhook is I/O and is
    not part of this module. */
module Notifier {
  import opened Wrappers
  import Decimal

  /* ---------------- Python's order on strings ---------------- */

  /** `a < b` on str: the first differing code point decides, and a proper
      prefix comes first. */
  predicate Less(a: string, b: string)
    ensures Less(a, b) ==> a != b
    ensures |a| < |b| && a == b[..|a|] ==> Less(a, b)
    decreases |a|
  {
    if |a| == 0 then |b| > 0
    else if |b| == 0 then false
    else if a[0] != b[0] then a[0] < b[0]
    else Less(a[1..], b[1..])
  }

  /* Less is a strict total order: irreflexive, transitive, total, asymmetric. */

  lemma {:induction false} LessIrreflexive(a: string)
    ensures !Less(a, a)
  {
    if |a| > 0 {
      LessIrreflexive(a[1..]);
    }
  }

  lemma {:induction false} LessTransitive(a: string, b: string, c: string)
    requires Less(a, b) && Less(b, c)
    ensures Less(a, c)
  {
    if |a| > 0 && a[0] == b[0] && b[0] == c[0] {
      LessTransitive(a[1..], b[1..], c[1..]);
    }
  }

  lemma {:induction false} LessTotal(a: string, b: string)
    ensures a == b || Less(a, b) || Less(b, a)
  {
    if |a| > 0 && |b| > 0 && a[0] == b[0] {
      LessTotal(a[1..], b[1..]);
      if a[1..] == b[1..] {
        assert a == [a[0]] + a[1..] && b == [b[0]] + b[1..];
      }
    }
  }

  lemma LessAsymmetric(a: string, b: string)
    requires Less(a, b)
    ensures !Less(b, a)
  {
  }

  /** On strings of decimal digits of equal length, for instance YYYYMMDD
      dates, string order is numeric order, so ascending means chronological. */
  lemma {:induction false} LessIsNumericOnDigits(a: string, b: string)
    requires |a| == |b| && Decimal.AllDigits(a) && Decimal.AllDigits(b)
    ensures Less(a, b) <==> Decimal.DigitsValue(a) < Decimal.DigitsValue(b)
    decreases |a|
  {
    if |a| > 0 {
      var n := |a| - 1;
      var pa, pb := a[..n], b[..n];
      LessSnoc(pa, a[n], pb, b[n]);
      assert a == pa + [a[n]] && b == pb + [b[n]];
      if pa == pb {
        LessIrreflexive(pa);
      } else {
        LessIsNumericOnDigits(pa, pb);
        LessIsNumericOnDigits(pb, pa);
        LessTotal(pa, pb);
        if Less(pa, pb) {
          DigitsPrefixDecides(pa, a[n], pb, b[n]);
        } else {
          DigitsPrefixDecides(pb, b[n], pa, a[n]);
          LessAsymmetric(pb, pa);
        }
      }
    } else {
      LessIrreflexive(a);
    }
  }

  /** Comparing equal-length strings extended by one character each: the
      prefixes decide unless they are equal. */
  lemma {:induction false} LessSnoc(p: string, x: char, q: string, y: char)
    requires |p| == |q|
    ensures Less(p + [x], q + [y]) <==> (Less(p, q) || (p == q && x < y))
    decreases |p|
  {
    if |p| > 0 {
      assert (p + [x])[1..] == p[1..] + [x];
      assert (q + [y])[1..] == q[1..] + [y];
      LessSnoc(p[1..], x, q[1..], y);
      if p[0] == q[0] && p[1..] == q[1..] {
        assert p == q;
      }
      if p == q {
        assert p[1..] == q[1..];
      }
    }
  }

  /** Appending a digit multiplies by ten and adds it, so the prefixes' order
      wins over the last digits'. */
  lemma DigitsPrefixDecides(pa: string, x: char, pb: string, y: char)
    requires Decimal.AllDigits(pa) && Decimal.AllDigits(pb)
    requires Decimal.IsDigit(x) && Decimal.IsDigit(y)
    requires Decimal.DigitsValue(pa) < Decimal.DigitsValue(pb)
    ensures Decimal.DigitsValue(pa + [x]) < Decimal.DigitsValue(pb + [y])
  {
  }

  /* ---------------- sorted(new_dates) ---------------- */

  predicate StrictlySorted(xs: seq<string>) {
    forall i, j :: 0 <= i < j < |xs| ==> Less(xs[i], xs[j])
  }

  /** The least element of a non-empty set. */
  method Least(s: set<string>) returns (m: string)
    requires s != {}
    ensures m in s
    ensures forall d :: d in s && d != m ==> Less(m, d)
  {
    m :| m in s;
    var todo := s - {m};
    while todo != {}
      invariant todo <= s && m in s && m !in todo
      invariant forall d :: d in s - todo && d != m ==> Less(m, d)
      decreases |todo|
    {
      var d :| d in todo;
      if Less(d, m) {
        forall e | e in s - todo && e != m
          ensures Less(d, e)
        {
          LessTransitive(d, m, e);
        }
        m := d;
      } else {
        LessTotal(d, m);
      }
      todo := todo - {d};
    }
  }

  /** `sorted(dates)`: the dates in ascending string order, each once. */
  method SortDates(dates: set<string>) returns (xs: seq<string>)
    ensures StrictlySorted(xs)
    ensures forall d :: d in dates <==> d in xs
    ensures |xs| == |dates|
  {
    xs := [];
    var rest := dates;
    while rest != {}
      invariant rest <= dates
      invariant forall d :: d in dates <==> d in xs || d in rest
      invariant forall i :: 0 <= i < |xs| ==> xs[i] !in rest
      invariant |xs| + |rest| == |dates|
      invariant StrictlySorted(xs)
      invariant forall i, d :: 0 <= i < |xs| && d in rest ==> Less(xs[i], d)
      decreases |rest|
    {
      var m := Least(rest);
      xs := xs + [m];
      rest := rest - {m};
    }
  }

  /** There is only one strictly ascending listing of a set, so sorting is
      determined by the set alone. */
  lemma {:induction false} SortedUnique(xs: seq<string>, ys: seq<string>)
    requires StrictlySorted(xs) && StrictlySorted(ys)
    requires forall d :: d in xs <==> d in ys
    ensures xs == ys
  {
    assert |xs| > 0 ==> xs[0] in xs;
    assert |ys| > 0 ==> ys[0] in ys;
    if |xs| == 0 || |ys| == 0 {
    } else {
      if xs[0] != ys[0] {
        assert xs[0] in ys;
        assert ys[0] in xs;
        var j :| 0 <= j < |ys| && ys[j] == xs[0];
        var k :| 0 <= k < |xs| && xs[k] == ys[0];
        LessAsymmetric(xs[0], ys[0]);
        assert false;
      }
      forall d
        ensures d in xs[1..] <==> d in ys[1..]
      {
        if d in xs[1..] {
          var i :| 1 <= i < |xs| && xs[i] == d;
          LessIrreflexive(d);
          assert d in ys && d != ys[0];
        }
        if d in ys[1..] {
          var i :| 1 <= i < |ys| && ys[i] == d;
          LessIrreflexive(d);
          assert d in xs && d != xs[0];
        }
      }
      SortedUnique(xs[1..], ys[1..]);
      assert xs == [xs[0]] + xs[1..] && ys == [ys[0]] + ys[1..];
    }
  }

  /* ---------------- one line per date ---------------- */

  /** YYYYMMDD rendered YYYY-MM-DD. */
  function FormatDate(d: string): (f: string)
    requires |d| == 8
    ensures |f| == 10 && f[4] == '-' && f[7] == '-'
  {
    d[..4] + "-" + d[4..6] + "-" + d[6..]
  }

  /** Drops the two dashes of YYYY-MM-DD. */
  function UnformatDate(f: string): string
    requires |f| == 10
  {
    f[..4] + f[5..7] + f[8..]
  }

  lemma FormatDateRoundTrip(d: string)
    requires |d| == 8
    ensures UnformatDate(FormatDate(d)) == d
  {
    assert d == d[..4] + d[4..6] + d[6..];
  }

  function DateLine(d: string): string
    requires |d| == 8
  {
    "- " + FormatDate(d)
  }

  /** One line per date, in the given order. */
  function DateLines(xs: seq<string>): (lines: seq<string>)
    requires forall i :: 0 <= i < |xs| ==> |xs[i]| == 8
    ensures |lines| == |xs|
    ensures forall i :: 0 <= i < |xs| ==> lines[i] == DateLine(xs[i])
  {
    if |xs| == 0 then [] else [DateLine(xs[0])] + DateLines(xs[1..])
  }

  /* ---------------- str.join and str.split ---------------- */

  /** `sep.join(parts)`. */
  function Join(parts: seq<string>, sep: char): (s: string)
    ensures |parts| == 0 ==> s == ""
    ensures |parts| >= 1 ==> |parts[0]| <= |s| && s[..|parts[0]|] == parts[0]
    ensures |parts| >= 2 ==> |parts[0]| < |s| && s[|parts[0]|] == sep
  {
    if |parts| == 0 then ""
    else if |parts| == 1 then parts[0]
    else parts[0] + [sep] + Join(parts[1..], sep)
  }

  /** `s.split(sep)`: the pieces between separators, at least one. */
  function Split(s: string, sep: char): (parts: seq<string>)
    ensures |parts| >= 1
  {
    if |s| == 0 then [""]
    else
      var rest := Split(s[1..], sep);
      if s[0] == sep then [""] + rest else [[s[0]] + rest[0]] + rest[1..]
  }

  lemma {:induction false} SplitNoSeparator(s: string, sep: char)
    requires sep !in s
    ensures Split(s, sep) == [s]
  {
    if |s| > 0 {
      SplitNoSeparator(s[1..], sep);
      assert [s[0]] + s[1..] == s;
    }
  }

  lemma {:induction false} SplitAppend(a: string, sep: char, b: string)
    requires sep !in a
    ensures Split(a + [sep] + b, sep) == [a] + Split(b, sep)
  {
    var s := a + [sep] + b;
    if |a| == 0 {
      assert s[1..] == b;
    } else {
      assert s[1..] == a[1..] + [sep] + b;
      SplitAppend(a[1..], sep, b);
      assert [a[0]] + a[1..] == a;
    }
  }

  /** Splitting undoes joining when no part contains the separator. */
  lemma {:induction false} SplitJoin(parts: seq<string>, sep: char)
    requires |parts| >= 1
    requires forall i :: 0 <= i < |parts| ==> sep !in parts[i]
    ensures Split(Join(parts, sep), sep) == parts
  {
    if |parts| == 1 {
      SplitNoSeparator(parts[0], sep);
    } else {
      SplitJoin(parts[1..], sep);
      SplitAppend(parts[0], sep, Join(parts[1..], sep));
      assert parts == [parts[0]] + parts[1..];
    }
  }

  /* ---------------- the message ---------------- */

  const Header: string := "🎬 **새로운 영화 예매일이 추가되었습니다!**\n"

  /** The header, then the dates' lines joined by newlines. Read back, it
      lists exactly the dates it was built from, in order, when there is at
      least one and none contains a newline. */
  function Message(xs: seq<string>): (content: string)
    requires forall i :: 0 <= i < |xs| ==> |xs[i]| == 8
    ensures |Header| <= |content| && content[..|Header|] == Header
    ensures |xs| >= 1 && (forall i :: 0 <= i < |xs| ==> '\n' !in xs[i]) ==>
              ReadMessage(content) == Some(xs)
  {
    var content := Header + Join(DateLines(xs), '\n');
    assert |xs| >= 1 && (forall i :: 0 <= i < |xs| ==> '\n' !in xs[i]) ==>
             ReadMessage(content) == Some(xs) by {
      if |xs| >= 1 && (forall i :: 0 <= i < |xs| ==> '\n' !in xs[i]) {
        ReadMessageRoundTrip(xs);
      }
    }
    content
  }

  /** Reads one "- YYYY-MM-DD" line back into YYYYMMDD. */
  function ReadLine(line: string): Option<string>
  {
    if |line| == 12 && line[..2] == "- " && line[6] == '-' && line[9] == '-'
    then Some(UnformatDate(line[2..]))
    else None
  }

  function ReadLines(lines: seq<string>): (r: Option<seq<string>>)
    ensures r.Some? ==> |r.value| == |lines|
  {
    if |lines| == 0 then Some([])
    else
      match ReadLine(lines[0])
      case None => None
      case Some(d) =>
        match ReadLines(lines[1..])
        case None => None
        case Some(ds) => Some([d] + ds)
  }

  /** Reads a message back into the dates it lists, in order. */
  function ReadMessage(content: string): Option<seq<string>>
  {
    if |Header| <= |content| && content[..|Header|] == Header
    then ReadLines(Split(content[|Header|..], '\n'))
    else None
  }

  lemma {:induction false} ReadDateLines(xs: seq<string>)
    requires forall i :: 0 <= i < |xs| ==> |xs[i]| == 8
    ensures ReadLines(DateLines(xs)) == Some(xs)
  {
    if |xs| > 0 {
      var line := DateLine(xs[0]);
      assert line[2..] == FormatDate(xs[0]);
      FormatDateRoundTrip(xs[0]);
      ReadDateLines(xs[1..]);
      assert DateLines(xs)[1..] == DateLines(xs[1..]);
      assert xs == [xs[0]] + xs[1..];
    }
  }

  /** A message lists exactly the dates it was built from, in the same order,
      provided there is at least one and none contains a newline. */
  lemma ReadMessageRoundTrip(xs: seq<string>)
    requires |xs| >= 1
    requires forall i :: 0 <= i < |xs| ==> |xs[i]| == 8 && '\n' !in xs[i]
    ensures ReadMessage(Header + Join(DateLines(xs), '\n')) == Some(xs)
  {
    var lines := DateLines(xs);
    forall i | 0 <= i < |lines|
      ensures '\n' !in lines[i]
    {
      var f := FormatDate(xs[i]);
      assert lines[i] == "- " + xs[i][..4] + "-" + xs[i][4..6] + "-" + xs[i][6..];
      assert '\n' !in xs[i][..4] && '\n' !in xs[i][4..6] && '\n' !in xs[i][6..];
    }
    SplitJoin(lines, '\n');
    var m := Header + Join(DateLines(xs), '\n');
    assert m[..|Header|] == Header;
    assert m[|Header|..] == Join(lines, '\n');
    ReadDateLines(xs);
  }

  /** `send_discord_message`'s text for a set of new dates: reading it back
      gives the dates, each once, in ascending order. */
  method Notification(dates: set<string>) returns (content: string)
    requires forall d :: d in dates ==> |d| == 8
    ensures |Header| <= |content| && content[..|Header|] == Header
    ensures dates != {} && (forall d :: d in dates ==> '\n' !in d) ==>
              && ReadMessage(content).Some?
              && StrictlySorted(ReadMessage(content).value)
              && (forall d :: d in dates <==> d in ReadMessage(content).value)
  {
    var xs := SortDates(dates);
    content := Message(xs);
  }
}
