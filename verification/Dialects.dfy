/** SQL dialects and the translation of `?` placeholders into numbered ones. */
module Dialects {

  datatype Dialect = SQLite | PostgreSQL

  predicate IsDigit(c: char) { '0' <= c <= '9' }

  function DigitOf(n: nat): (c: char)
    requires n < 10
    ensures IsDigit(c) && ValueOf(c) == n
  {
    "0123456789"[n]
  }

  function ValueOf(c: char): nat
    requires IsDigit(c)
  {
    c as int - '0' as int
  }

  /** Decimal text of a number. */
  function Decimal(n: nat): (s: string)
    ensures s != [] && AllDigits(s) && Number(s) == n
    ensures n > 0 ==> s[0] != '0'
  {
    if n < 10 then
      assert [DigitOf(n)][..0] == [];
      [DigitOf(n)]
    else
      var s := Decimal(n / 10) + [DigitOf(n % 10)];
      assert s[..|s| - 1] == Decimal(n / 10);
      s
  }

  predicate AllDigits(s: string) {
    forall i :: 0 <= i < |s| ==> IsDigit(s[i])
  }

  function Number(s: string): nat
    requires AllDigits(s)
  {
    if s == [] then 0 else 10 * Number(s[..|s| - 1]) + ValueOf(s[|s| - 1])
  }

  /** The text with the k-th `?` replaced by `$k`, counting from `n`. */
  function Numbered(q: string, n: nat): string {
    if q == [] then []
    else if q[0] == '?' then "$" + Decimal(n) + Numbered(q[1..], n + 1)
    else [q[0]] + Numbered(q[1..], n)
  }

  function Marks(q: string): nat {
    if q == [] then 0 else Marks(q[1..]) + if q[0] == '?' then 1 else 0
  }

  /** Placeholders are renumbered for PostgreSQL and left alone for SQLite. */
  method Translate(d: Dialect, query: string) returns (result: string)
    ensures result == if d.SQLite? then query else Numbered(query, 1)
  {
    if d.SQLite? {
      return query;
    }
    result := "";
    var paramIndex := 1;
    var i := 0;
    assert query[i..] == query;
    while i < |query|
      invariant 0 <= i <= |query| && paramIndex >= 1
      invariant result + Numbered(query[i..], paramIndex) == Numbered(query, 1)
    {
      assert query[i..][1..] == query[i + 1..];
      if query[i] == '?' {
        var mark := "$" + Decimal(paramIndex);
        assert result + (mark + Numbered(query[i + 1..], paramIndex + 1))
            == (result + mark) + Numbered(query[i + 1..], paramIndex + 1);
        result := result + mark;
        paramIndex := paramIndex + 1;
      } else {
        assert result + ([query[i]] + Numbered(query[i + 1..], paramIndex))
            == (result + [query[i]]) + Numbered(query[i + 1..], paramIndex);
        result := result + [query[i]];
      }
      i := i + 1;
    }
  }

  // ------------------------------------------------- what a text means

  /** A query is a text with holes; hole k takes the k-th argument. */
  datatype Piece = Text(c: char) | Hole(k: nat)

  /** Reading `?` placeholders: each is the next argument in order. */
  function ReadMarks(q: string, n: nat): seq<Piece> {
    if q == [] then []
    else if q[0] == '?' then [Hole(n)] + ReadMarks(q[1..], n + 1)
    else [Text(q[0])] + ReadMarks(q[1..], n)
  }

  /** The digits a text starts with. */
  function LeadingDigits(s: string): (n: nat)
    ensures n <= |s| && AllDigits(s[..n])
    ensures n < |s| ==> !IsDigit(s[n])
  {
    if s == [] || !IsDigit(s[0]) then 0
    else
      var m := LeadingDigits(s[1..]);
      assert forall i :: 1 <= i < m + 1 ==> s[i] == s[1..][i - 1];
      m + 1
  }

  /** Reading `$n` placeholders: a dollar with digits after it, as many as there are,
      is the hole they number; any other dollar is text. */
  function ReadDollars(t: string): seq<Piece>
    decreases |t|
  {
    if t == [] then []
    else if t[0] == '$' && LeadingDigits(t[1..]) > 0 then
      var m := LeadingDigits(t[1..]);
      [Hole(Number(t[1..][..m]))] + ReadDollars(t[1 + m..])
    else [Text(t[0])] + ReadDollars(t[1..])
  }

  /** No `?` and no `$` stands directly before a digit. */
  predicate Unambiguous(q: string) {
    |q| > 1 ==> !((q[0] == '?' || q[0] == '$') && IsDigit(q[1])) && Unambiguous(q[1..])
  }

  lemma {:induction false} LeadingOf(a: string, b: string)
    requires AllDigits(a)
    ensures LeadingDigits(a + b) == |a| + LeadingDigits(b)
  {
    if a == [] {
      assert a + b == b;
    } else {
      assert (a + b)[1..] == a[1..] + b;
      LeadingOf(a[1..], b);
    }
  }

  /** Numbered text starts with as many digits as the query did. */
  lemma NumberedDigits(q: string, n: nat)
    ensures LeadingDigits(Numbered(q, n)) == LeadingDigits(q)
  {
    if q != [] && IsDigit(q[0]) {
      NumberedDigits(q[1..], n);
      assert Numbered(q, n)[1..] == Numbered(q[1..], n);
    }
  }

  /** A dollar and the digits after it, as many as there are, read as one hole. */
  lemma HoleRead(digits: string, rest: string)
    requires AllDigits(digits) && digits != [] && LeadingDigits(rest) == 0
    ensures ReadDollars("$" + digits + rest) == [Hole(Number(digits))] + ReadDollars(rest)
  {
    var t := "$" + digits + rest;
    LeadingOf(digits, rest);
    assert t[1..] == digits + rest;
    assert t[1..][..|digits|] == digits;
    assert t[1 + |digits|..] == rest;
  }

  /** The translated text, read with numbered placeholders, is the query read with marks. */
  predicate SameMeaning(q: string, n: nat) {
    ReadDollars(Numbered(q, n)) == ReadMarks(q, n)
  }

  /** Every translated query means what the original meant, if and only if no `?` and
      no `$` in it stands directly before a digit. */
  lemma {:induction false} TranslationKeepsMeaning(q: string, n: nat)
    requires n >= 1
    ensures SameMeaning(q, n) <==> Unambiguous(q)
  {
    if q != [] {
      if q[0] == '?' {
        MarkCase(q, n);
        TranslationKeepsMeaning(q[1..], n + 1);
      } else {
        TextCase(q, n);
        TranslationKeepsMeaning(q[1..], n);
      }
    }
  }

  lemma {:induction false} LongerNumber(a: string, b: string)
    requires AllDigits(a + b) && AllDigits(a) && b != [] && Number(a) > 0
    ensures Number(a + b) > Number(a)
  {
    assert (a + b)[..|a + b| - 1] == a + b[..|b| - 1];
    if |b| > 1 {
      LongerNumber(a, b[..|b| - 1]);
    } else {
      assert a + b[..0] == a;
    }
  }

  lemma MarkCase(q: string, n: nat)
    requires n >= 1 && q != [] && q[0] == '?'
    ensures SameMeaning(q, n) <==> SameMeaning(q[1..], n + 1) && !(|q| > 1 && IsDigit(q[1]))
  {
    MarkRead(q, n);
    NumberedDigits(q[1..], n + 1);
    var rest := Numbered(q[1..], n + 1);
    var m := LeadingDigits(rest);
    assert ReadMarks(q, n)[0] == Hole(n) && ReadMarks(q, n)[1..] == ReadMarks(q[1..], n + 1);
    if |q| > 1 && IsDigit(q[1]) {
      LongerNumber(Decimal(n), rest[..m]);
    } else {
      assert Decimal(n) + rest[..m] == Decimal(n) && rest[m..] == rest;
      assert ReadDollars(Numbered(q, n))[1..] == ReadDollars(rest);
    }
  }

  /** A translated mark reads as a hole numbered by its own digits and any that follow. */
  lemma MarkRead(q: string, n: nat)
    requires q != [] && q[0] == '?'
    ensures var rest := Numbered(q[1..], n + 1);
      var m := LeadingDigits(rest);
      && AllDigits(Decimal(n) + rest[..m])
      && ReadDollars(Numbered(q, n)) == [Hole(Number(Decimal(n) + rest[..m]))] + ReadDollars(rest[m..])
  {
    var rest := Numbered(q[1..], n + 1);
    var m := LeadingDigits(rest);
    var digits, tail := rest[..m], rest[m..];
    AfterDigits(rest);
    assert rest == digits + tail;
    assert "$" + Decimal(n) + (digits + tail) == "$" + (Decimal(n) + digits) + tail;
    HoleRead(Decimal(n) + digits, tail);
  }

  lemma AfterDigits(s: string)
    ensures LeadingDigits(s[LeadingDigits(s)..]) == 0
  {
  }

  lemma TextCase(q: string, n: nat)
    requires q != [] && q[0] != '?'
    ensures SameMeaning(q, n) <==> SameMeaning(q[1..], n) && !(q[0] == '$' && |q| > 1 && IsDigit(q[1]))
  {
    var t := Numbered(q, n);
    assert t[1..] == Numbered(q[1..], n);
    NumberedDigits(q[1..], n);
    assert ReadMarks(q, n)[1..] == ReadMarks(q[1..], n);
    if q[0] == '$' && LeadingDigits(q[1..]) > 0 {
      assert ReadDollars(t)[0] != ReadMarks(q, n)[0];
    } else {
      assert ReadDollars(t) == [Text(q[0])] + ReadDollars(t[1..]);
      assert ReadDollars(t)[1..] == ReadDollars(t[1..]);
    }
  }

  /** The holes of a query are numbered 1 to the number of its marks, in order. */
  lemma {:induction false} HolesInOrder(q: string, n: nat)
    ensures Holes(ReadMarks(q, n)) == Upto(n, Marks(q))
  {
    if q != [] {
      var n' := if q[0] == '?' then n + 1 else n;
      HolesInOrder(q[1..], n');
      assert ReadMarks(q, n)[1..] == ReadMarks(q[1..], n');
    }
  }

  /** The numbers n, n + 1, and so on, k of them. */
  function Upto(n: nat, k: nat): seq<nat>
    decreases k
  {
    if k == 0 then [] else [n] + Upto(n + 1, k - 1)
  }

  function Holes(ps: seq<Piece>): seq<nat> {
    if ps == [] then []
    else (if ps[0].Hole? then [ps[0].k] else []) + Holes(ps[1..])
  }

  /** Numbering of a translated query: exactly $1 to $k in order of appearance. */
  lemma NumberingIsExact(q: string)
    requires Unambiguous(q)
    ensures Holes(ReadDollars(Numbered(q, 1))) == Upto(1, Marks(q))
  {
    TranslationKeepsMeaning(q, 1);
    HolesInOrder(q, 1);
  }

  /** A mark before a digit: the translation of "?1" reads as placeholder number 11. */
  lemma MarkBeforeDigit()
    ensures Numbered("?1", 1) == "$11" && ReadDollars("$11") == [Hole(11)]
    ensures ReadMarks("?1", 1) == [Hole(1), Text('1')] && !SameMeaning("?1", 1)
  {
    assert "?1"[1..] == "1" && "1"[1..] == "";
    assert Decimal(1) == "1";
    assert Numbered("1", 2) == "1";
    assert "$" + "1" + "1" == "$11";
    assert "$11"[1..] == "11" && "11"[1..] == "1";
    assert LeadingDigits("1") == 1 && LeadingDigits("11") == 2;
    assert "11"[..2] == "11" && "$11"[3..] == "" && "11"[..1] == "1" && "1"[..0] == "";
    assert Number("1") == 1;
    assert Number("11") == 11;
  }
}
