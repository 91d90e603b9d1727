/**
 * Cell coordinates written as element ids. `fillTable` names the cell of category
 * `catIdx`, clue `clueIdx` by the string `${catIdx}-${clueIdx}` (app.js:106);
 * `handleClick` splits the id on "-" and uses each piece as an array key
 * (app.js:122-123). An array key addresses an element only when it is the
 * canonical decimal numeral of an index, which is what `ParseIndex` accepts.
 */
module CellIds {
  import opened Wrappers

  predicate IsDigit(ch: char) { '0' <= ch <= '9' }

  function DigitChar(d: nat): (ch: char)
    requires d < 10
    ensures IsDigit(ch) && ch as int - '0' as int == d
  {
    ('0' as int + d) as char
  }

  function DigitValue(ch: char): (d: nat)
    requires IsDigit(ch)
    ensures d < 10 && DigitChar(d) == ch
  {
    ch as int - '0' as int
  }

  predicate AllDigits(s: string) {
    forall i | 0 <= i < |s| :: IsDigit(s[i])
  }

  /** `String(n)` for a non-negative integer: its decimal numeral, with no leading zero. */
  function NatToString(n: nat): (s: string)
    ensures IsCanonicalIndex(s)
    ensures s[0] == '0' <==> n == 0
    decreases n
  {
    if n < 10 then [DigitChar(n)] else NatToString(n / 10) + [DigitChar(n % 10)]
  }

  /** The number a string of digits denotes. */
  function DigitsValue(s: string): nat
    requires AllDigits(s)
    decreases |s|
  {
    if s == [] then 0 else 10 * DigitsValue(s[..|s| - 1]) + DigitValue(s[|s| - 1])
  }

  /** A key that names an array element: digits only, at least one, no leading zero. */
  predicate IsCanonicalIndex(s: string) {
    |s| >= 1 && AllDigits(s) && (|s| > 1 ==> s[0] != '0')
  }

  /** The array index a property key denotes, if any: only a canonical numeral names an
      element ("01", "" or "x" name none), and it names the index it is the numeral of. */
  function ParseIndex(s: string): (r: Option<nat>)
    ensures r.Some? <==> IsCanonicalIndex(s)
    ensures r.Some? ==> NatToString(r.value) == s
  {
    if IsCanonicalIndex(s) then
      NatToStringOfDigitsValue(s);
      Some(DigitsValue(s))
    else
      None
  }

  /** Printing a number and reading its digits back gives the number. */
  lemma {:induction false} DigitsValueOfNatToString(n: nat)
    ensures DigitsValue(NatToString(n)) == n
    decreases n
  {
    var s := NatToString(n);
    if n >= 10 {
      DigitsValueOfNatToString(n / 10);
      assert s[..|s| - 1] == NatToString(n / 10);
    }
  }

  /** Distinct numbers print differently. */
  lemma NatToStringInjective(m: nat, n: nat)
    ensures NatToString(m) == NatToString(n) <==> m == n
  {
    DigitsValueOfNatToString(m);
    DigitsValueOfNatToString(n);
  }

  /** Printing an index and reading it back as a key gives the index. */
  lemma ParseIndexOfNatToString(n: nat)
    ensures ParseIndex(NatToString(n)) == Some(n)
  {
    NatToStringInjective(ParseIndex(NatToString(n)).value, n);
  }

  /** The converse: a canonical numeral is the printed form of the number it denotes. */
  lemma {:induction false} NatToStringOfDigitsValue(s: string)
    requires IsCanonicalIndex(s)
    ensures NatToString(DigitsValue(s)) == s
    decreases |s|
  {
    if |s| > 1 {
      var n := DigitsValue(s);
      var p := s[..|s| - 1];
      var d := DigitValue(s[|s| - 1]);
      assert IsCanonicalIndex(p) by { assert p[0] == s[0]; }
      var v := DigitsValue(p);
      NatToStringOfDigitsValue(p);
      assert v != 0 by { assert p[0] == s[0]; }
      assert n == 10 * v + d;
      assert n / 10 == v && n % 10 == d;
      assert s == p + [s[|s| - 1]];
    }
  }

  /** `s.split(sep)` with a one-character separator: the pieces between the
      separators, in order, so a string with k separators gives k + 1 pieces. */
  function Split(s: string, sep: char): (pieces: seq<string>)
    ensures |pieces| >= 1
    ensures forall i | 0 <= i < |pieces| :: sep !in pieces[i]
    ensures Join(pieces, sep) == s
    decreases |s|
  {
    if s == [] then [[]]
    else
      var rest := Split(s[1..], sep);
      if s[0] == sep then
        [[]] + rest
      else
        assert Join(rest, sep) == rest[0] + (if |rest| == 1 then [] else [sep] + Join(rest[1..], sep));
        assert s == [s[0]] + s[1..];
        [[s[0]] + rest[0]] + rest[1..]
  }

  /** The pieces glued back together with the separator between them. */
  function Join(pieces: seq<string>, sep: char): string
    requires |pieces| >= 1
    decreases |pieces|
  {
    if |pieces| == 1 then pieces[0] else pieces[0] + [sep] + Join(pieces[1..], sep)
  }

  lemma SplitWithout(s: string, sep: char)
    requires sep !in s
    ensures Split(s, sep) == [s]
  {
  }

  lemma {:induction false} SplitAtFirst(a: string, sep: char, t: string)
    requires sep !in a
    ensures Split(a + [sep] + t, sep) == [a] + Split(t, sep)
    decreases |a|
  {
    var s := a + [sep] + t;
    if a == [] {
      assert s[1..] == t;
    } else {
      assert s[1..] == a[1..] + [sep] + t;
      SplitAtFirst(a[1..], sep, t);
      assert [a[0]] + a[1..] == a;
    }
  }

  /** Splitting undoes joining pieces that do not contain the separator. */
  lemma {:induction false} SplitJoin(pieces: seq<string>, sep: char)
    requires |pieces| >= 1
    requires forall i | 0 <= i < |pieces| :: sep !in pieces[i]
    ensures Split(Join(pieces, sep), sep) == pieces
    decreases |pieces|
  {
    if |pieces| == 1 {
      SplitWithout(pieces[0], sep);
    } else {
      SplitJoin(pieces[1..], sep);
      SplitAtFirst(pieces[0], sep, Join(pieces[1..], sep));
      assert [pieces[0]] + pieces[1..] == pieces;
    }
  }

  /** The id `fillTable` gives the cell of category `catIdx`, clue `clueIdx`. */
  function CellId(catIdx: nat, clueIdx: nat): (id: string)
    ensures |NatToString(catIdx)| < |id| && id[|NatToString(catIdx)|] == '-'
  {
    NatToString(catIdx) + "-" + NatToString(clueIdx)
  }

  /** The coordinates `handleClick` reads from an id: the first two pieces of
      `id.split("-")` (any further pieces are ignored). It decodes exactly when both
      pieces are canonical numerals, and then to the indices they are the numerals of. */
  function DecodeCell(id: string): (r: Option<(nat, nat)>)
    ensures r.Some? <==>
      |Split(id, '-')| >= 2 && IsCanonicalIndex(Split(id, '-')[0]) && IsCanonicalIndex(Split(id, '-')[1])
    ensures r.Some? ==>
      Split(id, '-')[0] == NatToString(r.value.0) && Split(id, '-')[1] == NatToString(r.value.1)
  {
    var pieces := Split(id, '-');
    if |pieces| < 2 then None
    else match (ParseIndex(pieces[0]), ParseIndex(pieces[1]))
      case (Some(c), Some(q)) => Some((c, q))
      case _ => None
  }

  /** Splitting a cell id on "-" yields exactly the two numerals. */
  lemma SplitCellId(catIdx: nat, clueIdx: nat)
    ensures Split(CellId(catIdx, clueIdx), '-') == [NatToString(catIdx), NatToString(clueIdx)]
  {
    var pieces := [NatToString(catIdx), NatToString(clueIdx)];
    forall i | 0 <= i < 2 ensures '-' !in pieces[i] {
      assert forall k | 0 <= k < |pieces[i]| :: pieces[i][k] != '-';
    }
    assert Join(pieces, '-') == CellId(catIdx, clueIdx);
    SplitJoin(pieces, '-');
  }

  /** Decoding a cell id gives back its coordinates. */
  lemma CellIdRoundTrip(catIdx: nat, clueIdx: nat)
    ensures DecodeCell(CellId(catIdx, clueIdx)) == Some((catIdx, clueIdx))
  {
    SplitCellId(catIdx, clueIdx);
    var r := DecodeCell(CellId(catIdx, clueIdx));
    NatToStringInjective(r.value.0, catIdx);
    NatToStringInjective(r.value.1, clueIdx);
  }

  /** Distinct cells get distinct ids. */
  lemma CellIdInjective(c1: nat, q1: nat, c2: nat, q2: nat)
    ensures CellId(c1, q1) == CellId(c2, q2) <==> c1 == c2 && q1 == q2
  {
    CellIdRoundTrip(c1, q1);
    CellIdRoundTrip(c2, q2);
  }

  /** Conversely, when an id decodes to `(c, q)`, rebuilding "<first piece>-<second piece>"
      (as `handleClick` does for its display update) gives the id of cell `(c, q)`,
      and an id of exactly two pieces is that cell id itself. */
  lemma DecodeCellSound(id: string, c: nat, q: nat)
    requires DecodeCell(id) == Some((c, q))
    ensures |Split(id, '-')| >= 2
    ensures Split(id, '-')[0] + "-" + Split(id, '-')[1] == CellId(c, q)
    ensures |Split(id, '-')| == 2 ==> id == CellId(c, q)
  {
    var pieces := Split(id, '-');
    if |pieces| == 2 {
      assert Join(pieces, '-') == pieces[0] + "-" + pieces[1];
    }
  }
}
