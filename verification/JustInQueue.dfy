/**
 A work item that prints one line per run and requeues itself until it has accounted for enough output. Each run adds
 the whole output so far to the account, so the account grows quadratically.
 */
module JustInQueue {
  import opened Words

  /** The page size of the machine. */
  type PageSize = p: nat | p >= 4096 witness 4096

  function Limit(page: PageSize): nat { page - 128 }

  const HEADER: string := "    time  delta preempt   pid cpu command\n"

  /** Values of an `unsigned long`, at its widest. */
  const ULONG: nat := 0x1_0000_0000_0000_0000

  /** The word read as a signed one. */
  function Signed(x: int): (r: int)
    ensures -(ULONG / 2) <= r < ULONG / 2 && (r - x) % ULONG == 0
  {
    var r := x % ULONG;
    SameRemainder(x, ULONG);
    if r < ULONG / 2 then r else r - ULONG
  }

  lemma SameRemainder(x: int, n: nat)
    requires n > 0
    ensures (x % n - x) % n == 0 && (x % n - n - x) % n == 0
  {
    assert x % n - x == 0 + -(x / n) * n;
    ModAddMultiple(0, -(x / n), n);
    assert x % n - n - x == 0 + (-(x / n) - 1) * n;
    ModAddMultiple(0, -(x / n) - 1, n);
  }

  // What printf makes of a number

  function DigitOf(d: nat): char
    requires d < 10
  {
    ('0' as int + d) as char
  }

  function Numeral(n: nat): string {
    if n < 10 then [DigitOf(n)] else Numeral(n / 10) + [DigitOf(n % 10)]
  }

  predicate AllDigits(s: string) { forall i :: 0 <= i < |s| ==> '0' <= s[i] <= '9' }

  /** The number a string of digits stands for. */
  function ValueOf(s: string): nat
    requires AllDigits(s)
  {
    if s == [] then 0 else 10 * ValueOf(s[..|s| - 1]) + (s[|s| - 1] as int - '0' as int)
  }

  /** A numeral reads back as its number, and has no leading zero. */
  lemma {:induction false} NumeralReads(n: nat)
    ensures AllDigits(Numeral(n)) && ValueOf(Numeral(n)) == n
    ensures |Numeral(n)| > 0 && (n > 0 ==> Numeral(n)[0] != '0')
    decreases n
  {
    if n >= 10 {
      NumeralReads(n / 10);
      var s := Numeral(n);
      assert s[..|s| - 1] == Numeral(n / 10);
    } else {
      assert Numeral(n)[..0] == [];
    }
  }

  /** Its length is the number of decimal digits. */
  lemma {:induction false} NumeralLength(n: nat)
    ensures |Numeral(n)| >= 1 && n < Pow10(|Numeral(n)|)
    ensures n > 0 ==> Pow10(|Numeral(n)| - 1) <= n
    ensures n == 0 ==> |Numeral(n)| == 1
    decreases n
  {
    assert Pow10(1) == 10;
    if n >= 10 {
      NumeralLength(n / 10);
    }
  }

  function Decimal(n: int): string { if n < 0 then "-" + Numeral(-n) else Numeral(n) }

  /** A decimal reads back as its number, sign included. */
  lemma DecimalReads(n: int)
    ensures n < 0 ==> Decimal(n)[0] == '-' && AllDigits(Decimal(n)[1..]) && ValueOf(Decimal(n)[1..]) == -n
    ensures n >= 0 ==> AllDigits(Decimal(n)) && ValueOf(Decimal(n)) == n
  {
    hide Numeral, ValueOf;
    if n < 0 {
      NumeralReads(-n);
      assert Decimal(n)[1..] == Numeral(-n);
    } else {
      NumeralReads(n);
    }
  }

  function Blanks(n: nat): (s: string)
    ensures |s| == n && forall i :: 0 <= i < n ==> s[i] == ' '
  {
    seq(n, _ => ' ')
  }

  /** %<width>i */
  function Field(width: nat, n: int): (s: string)
    ensures |s| == Max(width, |Decimal(n)|)
  {
    Blanks(Max(width - |Decimal(n)|, 0)) + Decimal(n)
  }

  function Pow10(k: nat): nat { if k == 0 then 1 else 10 * Pow10(k - 1) }

  lemma {:induction false} DigitsBelow(n: nat, k: nat)
    requires k >= 1 && n < Pow10(k)
    ensures 1 <= |Numeral(n)| <= k
    decreases k
  {
    if n >= 10 {
      assert Pow10(1) == 10;
      DigitsBelow(n / 10, k - 1);
    }
  }

  /** What the kernel shows about the moment of a print: the clock, the preempt count, pid, cpu and command. */
  datatype Moment = Moment(jiffies: nat, preempt: int, pid: int, cpu: int, comm: string) {
    predicate Valid() {
      && jiffies < ULONG
      && Int(preempt) && Int(pid) && Int(cpu)
      && |comm| <= 15 // TASK_COMM_LEN, with its terminator
    }

    static predicate Int(n: int) { -0x8000_0000 <= n < 0x8000_0000 }

    /** "%9li  %4li     %3i %5i %3i %s\n" */
    function Line(previous: nat): string {
      Field(9, Signed(jiffies)) + "  " + Field(4, Signed(jiffies - previous)) + "     " + Field(3, preempt) + " "
      + Field(5, pid) + " " + Field(3, cpu) + " " + comm + "\n"
    }

    function LineLength(previous: nat): nat { |Line(previous)| }
  }

  const SHORTEST: nat := 35
  const LONGEST: nat := 99

  lemma IntFieldBelow(width: nat, n: int)
    requires width <= 11 && Moment.Int(n)
    ensures width <= |Field(width, n)| <= 11
  {
    Pow10Ten();
    DigitsBelow(if n < 0 then -n else n, 10);
  }

  lemma Pow10Ten()
    ensures Pow10(10) == 10_000_000_000
  {
    assert Pow10(5) == 100_000;
    assert Pow10(10) == 100_000 * Pow10(5);
  }

  lemma LongFieldBelow(width: nat, x: int)
    requires width <= 20
    ensures width <= |Field(width, Signed(x))| <= 20
  {
    Pow10Ten();
    assert Pow10(15) == 100_000 * Pow10(10);
    assert Pow10(19) == 10_000 * Pow10(15);
    var n := Signed(x);
    DigitsBelow(if n < 0 then -n else n, 19);
  }

  lemma FieldIs(width: nat, n: nat, blanks: string, digits: string, field: string)
    requires Numeral(n) == digits && field == blanks + digits && |blanks| == Max(width - |digits|, 0)
    requires forall i :: 0 <= i < |blanks| ==> blanks[i] == ' '
    ensures Field(width, n) == field
  {
    hide Numeral;
  }

  lemma NumeralSnoc(n: nat, d: nat, digits: string)
    requires n > 0 && d < 10 && Numeral(n) == digits
    ensures Numeral(10 * n + d) == digits + [DigitOf(d)]
  {
  }

  /** A line as it stands on the page: columns of 9, 4, 3, 5 and 3, overrun by a clock of ten digits. */
  lemma LineExample()
    ensures Moment(1234567890, 1, 42, 0, "kworker").Line(1234567885)
            == "1234567890" + "  " + "   5" + "     " + "  1" + " " + "   42" + " " + "  0" + " " + "kworker" + "\n"
  {
    hide Numeral, Field, Signed;
    var s := "1234567890";
    ExampleNumerals();
    assert Signed(1234567890) == 1234567890 && Signed(5) == 5 by {
      SignedOfSmall(1234567890);
      SignedOfSmall(5);
    }
    FieldIs(9, 1234567890, "", s, s);
    FieldIs(4, 5, "   ", "5", "   5");
    FieldIs(3, 1, "  ", "1", "  1");
    FieldIs(5, 42, "   ", "42", "   42");
    FieldIs(3, 0, "  ", "0", "  0");
  }

  lemma SignedOfSmall(x: nat)
    requires x < ULONG / 2
    ensures Signed(x) == x
  {
  }

  lemma ExampleNumerals()
    ensures Numeral(0) == "0" && Numeral(1) == "1" && Numeral(5) == "5" && Numeral(42) == "42"
    ensures Numeral(1234567890) == "1234567890"
  {
    NumeralSnoc(1, 2, "1");
    NumeralSnoc(12, 3, "12");
    NumeralSnoc(123, 4, "123");
    NumeralSnoc(1234, 5, "1234");
    NumeralSnoc(12345, 6, "12345");
    NumeralSnoc(123456, 7, "123456");
    NumeralSnoc(1234567, 8, "1234567");
    NumeralSnoc(12345678, 9, "12345678");
    NumeralSnoc(123456789, 0, "123456789");
  }

  /** Every line is at least 35 and at most 99 characters long. */
  lemma LineLengthBounds(m: Moment, previous: nat)
    requires m.Valid()
    ensures SHORTEST <= m.LineLength(previous) <= LONGEST
  {
    hide Field, Signed;
    LongFieldBelow(9, m.jiffies);
    LongFieldBelow(4, m.jiffies - previous);
    IntFieldBelow(3, m.preempt);
    IntFieldBelow(5, m.pid);
    IntFieldBelow(3, m.cpu);
  }

  // One print

  /** `len` is the account, `count` what the seq buffer holds. */
  datatype Work = Work(len: int, count: nat, jiffies: nat)

  /** seq_puts and seq_printf: text that does not fit below the page size marks the buffer as full. */
  function Emit(page: PageSize, count: nat, n: nat): (c: nat)
    ensures c <= page && (c < page <==> count + n < page)
    ensures c < page ==> c == count + n
  {
    if count + n < page then count + n else page
  }

  predicate Prints(page: PageSize, w: Work) { w.len <= Limit(page) }

  function PrintOnce(page: PageSize, w: Work, m: Moment): Work {
    if !Prints(page, w) then w
    else
      var top := if w.len == 0 then Emit(page, w.count, |HEADER|) else w.count;
      var end := Emit(page, top, m.LineLength(w.jiffies));
      Work(w.len + (if w.len == 0 then top else 0) + end, end, m.jiffies)
  }

  /** The state after a list of prints. */
  function Lines(page: PageSize, w: Work, ms: seq<Moment>): Work
    decreases |ms|
  {
    if ms == [] then w else PrintOnce(page, Lines(page, w, ms[..|ms| - 1]), ms[|ms| - 1])
  }

  // Whole readings

  function Opened(start: nat): Work { Work(0, 0, start) }

  /** Every print of the list took place, and put out a line of at least w characters. */
  ghost predicate AllPrinted(page: PageSize, start: nat, ms: seq<Moment>, w: nat) {
    forall k :: 0 <= k < |ms| ==>
      && ms[k].Valid() && Prints(page, Lines(page, Opened(start), ms[..k]))
      && w <= ms[k].LineLength(Lines(page, Opened(start), ms[..k]).jiffies)
  }

  lemma HeaderLength()
    ensures |HEADER| == 42
  {
  }

  /** One print that takes place: the page does not fill, and the account grows by the whole output so far. */
  lemma PrintGrows(page: PageSize, w: Work, m: Moment)
    requires m.Valid() && Prints(page, w) && (w.count == 0 == w.len || 0 < w.count <= w.len)
    ensures var w', n := PrintOnce(page, w, m), m.LineLength(w.jiffies);
      var top := if w.len == 0 then 42 else w.count;
      && w'.count == top + n < page && w'.jiffies == m.jiffies
      && w'.len == w.len + (if w.len == 0 then 42 else 0) + w'.count
      && 0 < w'.count <= w'.len
  {
    hide Moment.LineLength;
    HeaderLength();
    LineLengthBounds(m, w.jiffies);
  }

  /** All but the last of the prints, and the last. */
  lemma LastPrinted(page: PageSize, start: nat, ms: seq<Moment>, w: nat)
    requires AllPrinted(page, start, ms, w) && ms != []
    ensures var before, m := ms[..|ms| - 1], ms[|ms| - 1];
      && AllPrinted(page, start, before, w) && m.Valid() && Prints(page, Lines(page, Opened(start), before))
      && w <= m.LineLength(Lines(page, Opened(start), before).jiffies)
      && Lines(page, Opened(start), ms) == PrintOnce(page, Lines(page, Opened(start), before), m)
  {
    hide Prints, PrintOnce, Moment.LineLength, Moment.Valid;
    var k := |ms| - 1;
    assert forall i :: 0 <= i < k ==> ms[..k][..i] == ms[..i] && ms[..k][i] == ms[i];
  }

  /** The fill of the page, and twice the account, after k prints of w characters each. */
  function Fill(w: nat, k: nat): nat { 42 + w * k }

  function Account(w: nat, k: nat): nat { 84 * (k + 1) + w * k * (k + 1) }

  lemma Growth(w: nat, k: nat)
    ensures Fill(w, 0) == 42 && Account(w, 0) == 84
    ensures Fill(w, k) + w == Fill(w, k + 1)
    ensures Account(w, k) + 2 * Fill(w, k + 1) == Account(w, k + 1)
  {
    assert w * (k + 1) == w * k + w;
    assert w * (k + 1) * (k + 2) == w * (k + 1) * k + 2 * (w * (k + 1));
    assert w * k * (k + 1) == w * (k + 1) * k;
  }

  /** After k prints: k lines below the header, and an account between two parabolas. */
  lemma {:induction false} LinesBounds(page: PageSize, start: nat, ms: seq<Moment>, w: nat)
    requires AllPrinted(page, start, ms, w)
    ensures var k, d := |ms|, Lines(page, Opened(start), ms);
      && (k == 0 ==> d == Opened(start))
      && (k > 0 ==> Fill(w, k) <= d.count <= Fill(LONGEST, k))
      && (k > 0 ==> Account(w, k) <= 2 * d.len <= Account(LONGEST, k))
      && d.count <= d.len && d.count < page && (k > 0 ==> 0 < d.count)
    decreases |ms|
  {
    hide Prints, PrintOnce, Moment.LineLength, Moment.Valid, Fill, Account, AllPrinted;
    if ms != [] {
      var k := |ms| - 1;
      var before, m := ms[..k], ms[k];
      LastPrinted(page, start, ms, w);
      LinesBounds(page, start, before, w);
      PrintGrows(page, Lines(page, Opened(start), before), m);
      LineLengthBounds(m, Lines(page, Opened(start), before).jiffies);
      Growth(w, k);
      Growth(LONGEST, k);
    }
  }

  /** The text that a list of prints puts out: the header, and the line of each, with the time since the one before. */
  function Text(start: nat, ms: seq<Moment>): string {
    if ms == [] then ""
    else
      var k := |ms| - 1;
      (if k == 0 then HEADER else Text(start, ms[..k])) + ms[k].Line(if k == 0 then start else ms[k - 1].jiffies)
  }

  /** The page is filled by exactly that text, and the record remembers the clock of the last print. */
  lemma {:induction false} PageIsText(page: PageSize, start: nat, ms: seq<Moment>)
    requires AllPrinted(page, start, ms, SHORTEST)
    ensures var d := Lines(page, Opened(start), ms);
      d.count == |Text(start, ms)| && d.jiffies == if ms == [] then start else ms[|ms| - 1].jiffies
    decreases |ms|
  {
    hide Prints, PrintOnce, Moment.LineLength, Moment.Valid, Fill, Account, Text, AllPrinted;
    if ms == [] {
      NoText(start);
    } else {
      var k := |ms| - 1;
      var before, m := ms[..k], ms[k];
      LastPrinted(page, start, ms, SHORTEST);
      PageIsText(page, start, before);
      LinesBounds(page, start, before, SHORTEST);
      PrintGrows(page, Lines(page, Opened(start), before), m);
      TextGrows(start, before, m);
      assert before + [m] == ms;
    }
  }

  lemma NoText(start: nat)
    ensures Text(start, []) == ""
  {
  }

  lemma TextGrows(start: nat, ms: seq<Moment>, m: Moment)
    ensures |Text(start, ms + [m])|
            == (if ms == [] then 42 else |Text(start, ms)|)
               + m.LineLength(if ms == [] then start else ms[|ms| - 1].jiffies)
  {
    hide Moment.Line;
    HeaderLength();
    assert (ms + [m])[..|ms|] == ms;
  }

  /** Rescheduling stops: if every line has at least w characters, k prints satisfy w * k * (k - 1) / 2 <= LIMIT; the
      account adds the header each time on top. */
  lemma QuadraticBound(page: PageSize, start: nat, ms: seq<Moment>, w: nat)
    requires AllPrinted(page, start, ms, w)
    ensures ms != [] ==> Account(w, |ms| - 1) <= 2 * Limit(page)
    ensures w * |ms| * (|ms| - 1) <= 2 * Limit(page)
  {
    hide PrintOnce, Lines, Moment.LineLength, Moment.Valid, Fill, Account, AllPrinted;
    if ms != [] {
      var k := |ms| - 1;
      LastPrinted(page, start, ms, w);
      LinesBounds(page, start, ms[..k], w);
      Growth(w, 0);
      AccountIsQuadratic(w, k);
    }
  }

  lemma AccountIsQuadratic(w: nat, k: nat)
    ensures w * (k + 1) * k <= 84 * k + w * (k + 1) * k <= Account(w, k)
  {
    assert w * (k + 1) * k == w * k * (k + 1);
  }

  /** So the number of prints is bounded, */
  lemma PrintsAreBounded(page: PageSize, start: nat, ms: seq<Moment>)
    requires AllPrinted(page, start, ms, SHORTEST)
    ensures |ms| <= page
  {
    hide AllPrinted, Moment.LineLength, Account;
    QuadraticBound(page, start, ms, SHORTEST);
    if ms != [] {
      AccountIsQuadratic(SHORTEST, |ms| - 1);
    }
  }

  /** and it does not stop before the account can have passed the limit. */
  lemma StopsNoEarlier(page: PageSize, start: nat, ms: seq<Moment>)
    requires AllPrinted(page, start, ms, SHORTEST) && !Prints(page, Lines(page, Opened(start), ms))
    ensures ms != [] && 2 * Limit(page) < Account(LONGEST, |ms|)
  {
    hide PrintOnce, Lines, AllPrinted, Moment.LineLength, Moment.Valid, Account, Fill;
    LinesBounds(page, start, ms, SHORTEST);
  }

  /** On pages of 4096 bytes that is between 9 and 14 lines. */
  lemma LinesOnSmallPages(k: nat)
    requires k > 0
    ensures Account(SHORTEST, k - 1) <= 2 * Limit(4096) ==> k <= 14
    ensures 2 * Limit(4096) < Account(LONGEST, k) ==> k >= 9
  {
    assert SHORTEST * (k - 1) * k == SHORTEST * (k * (k - 1));
    assert LONGEST * k * (k + 1) == LONGEST * (k * (k + 1));
    assert k >= 15 ==> k * (k - 1) >= 15 * 14;
    assert k <= 8 ==> k * (k + 1) <= 8 * 9;
  }

  lemma NoPrint(page: PageSize, w: Work, m: Moment)
    ensures !Prints(page, w) ==> PrintOnce(page, w, m) == w
  {
  }

  lemma NothingPrinted(page: PageSize, start: nat)
    ensures AllPrinted(page, start, [], SHORTEST) && Lines(page, Opened(start), []) == Opened(start)
  {
  }

  lemma OneMorePrinted(page: PageSize, start: nat, ms: seq<Moment>, m: Moment)
    requires AllPrinted(page, start, ms, SHORTEST) && m.Valid() && Prints(page, Lines(page, Opened(start), ms))
    ensures AllPrinted(page, start, ms + [m], SHORTEST)
    ensures Lines(page, Opened(start), ms + [m]) == PrintOnce(page, Lines(page, Opened(start), ms), m)
  {
    hide Prints, PrintOnce, Moment.LineLength, Moment.Valid;
    var all := ms + [m];
    assert all[..|ms|] == ms;
    forall k | 0 <= k < |all|
      ensures && all[k].Valid() && Prints(page, Lines(page, Opened(start), all[..k]))
              && SHORTEST <= all[k].LineLength(Lines(page, Opened(start), all[..k]).jiffies)
    {
      if k < |ms| {
        assert all[..k] == ms[..k];
        assert ms[k].Valid();
      } else {
        LineLengthBounds(m, Lines(page, Opened(start), ms).jiffies);
      }
    }
  }

  function First(moments: nat -> Moment, n: nat): (ms: seq<Moment>)
    ensures |ms| == n && forall i :: 0 <= i < n ==> ms[i] == moments(i)
  {
    seq(n, i requires 0 <= i => moments(i))
  }

  class ClientData {
    const page: PageSize
    var len: int
    var count: nat
    var jiffies: nat
    var queued: bool
    var woken: bool

    function View(): Work
      reads this
    {
      Work(len, count, jiffies)
    }

    /** jiq_print */
    method Print(m: Moment) returns (again: bool)
      modifies `len, `count, `jiffies, `woken
      ensures again <==> old(len) <= page - 128
      ensures !again ==> len == old(len) && count == old(count) && jiffies == old(jiffies)
      ensures again ==>
        var top := if old(len) == 0 then Emit(page, old(count), |HEADER|) else old(count);
        && count == Emit(page, top, |m.Line(old(jiffies))|) && jiffies == m.jiffies
        && len == old(len) + count + (if old(len) == 0 then top else 0)
      ensures View() == PrintOnce(page, old(View()), m) && again == Prints(page, old(View()))
      ensures woken == (old(woken) || !again)
    {
      if len > Limit(page) {
        woken := true;
        return false;
      }
      var added := 0;
      if len == 0 {
        count := Emit(page, count, |HEADER|);
        added := count;
      }
      count := Emit(page, count, m.LineLength(jiffies));
      added := added + count;
      len := len + added;
      jiffies := m.jiffies;
      return true;
    }

    /** jiq_print_wq; jiq_print_wq_delayed differs only in when the next run comes. */
    method PrintWq(m: Moment)
      requires !queued
      modifies this
      ensures View() == PrintOnce(page, old(View()), m)
      ensures queued == Prints(page, old(View())) && woken == (old(woken) || !queued)
    {
      var again := Print(m);
      if !again {
        return;
      }
      queued := true;
    }

    /** A reader of the work-queue file, from an empty seq buffer, with the runs of the work item at arbitrary
        moments: it is woken, the page is never full, and the number of lines is the one that brings the account over
        the limit: the one before is within it for lines of the least length, this one is not for the greatest. */
    method ReadWqShow(start: nat, moments: nat -> Moment) returns (lines: nat)
      requires forall i :: moments(i).Valid()
      requires count == 0
      modifies this
      ensures woken && !queued && !Prints(page, View())
      ensures lines > 0 && Account(SHORTEST, lines - 1) <= 2 * Limit(page) < Account(LONGEST, lines)
      ensures page == 4096 ==> 9 <= lines <= 14
      ensures View() == Lines(page, Opened(start), First(moments, lines))
      ensures count == |Text(start, First(moments, lines))| < page
    {
      hide PrintOnce, Prints, AllPrinted, Moment.LineLength, Moment.Line, Moment.Valid, Account, Fill, Text, Emit;
      len, jiffies, woken := 0, start, false;
      queued := true;
      lines := 0;
      NothingPrinted(page, start);
      ghost var printed: seq<Moment> := [];
      while queued
        invariant |printed| == lines && forall i :: 0 <= i < lines ==> printed[i] == moments(i)
        invariant AllPrinted(page, start, printed, SHORTEST) && View() == Lines(page, Opened(start), printed)
        invariant !queued ==> woken && !Prints(page, View())
        decreases queued, page + 1 - lines
      {
        queued := false;
        NoPrint(page, View(), moments(lines));
        PrintWq(moments(lines));
        if queued {
          OneMorePrinted(page, start, printed, moments(lines));
          printed := printed + [moments(lines)];
          lines := lines + 1;
          PrintsAreBounded(page, start, printed);
        }
      }
      QuadraticBound(page, start, printed, SHORTEST);
      StopsNoEarlier(page, start, printed);
      LinesOnSmallPages(lines);
      LinesBounds(page, start, printed, SHORTEST);
      PageIsText(page, start, printed);
      assert printed == First(moments, lines);
    }
  }
}
