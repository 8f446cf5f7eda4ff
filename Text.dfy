/** The string operations the holiday queries rely on: `str.lower()`,
    the `in` substring test, Python's string ordering and the
    zero-padded "DD.MM" form of a day and month. */
module Text {

  /** `str.lower()` on one character, for Latin and Cyrillic capitals. */
  function LowerChar(c: char): (r: char)
    ensures 'A' <= c <= 'Z' ==> 'a' <= r <= 'z' && r == (c as int + 32) as char
    ensures 'a' <= c <= 'z' ==> r == c
  {
    if 'A' <= c <= 'Z' then (c as int + 32) as char
    else if 'А' <= c <= 'Я' then (c as int + 32) as char    // U+0410..U+042F
    else if 'Ѐ' <= c <= 'Џ' then (c as int + 80) as char    // U+0400..U+040F, such as Ё
    else c
  }

  function Lower(s: string): (r: string)
    ensures |r| == |s|
    ensures forall i :: 0 <= i < |s| ==> r[i] == LowerChar(s[i])
  {
    if s == [] then [] else [LowerChar(s[0])] + Lower(s[1..])
  }

  lemma LowerCharIdempotent(c: char)
    ensures LowerChar(LowerChar(c)) == LowerChar(c)
  {
  }

  /** Lowering twice is lowering once. */
  lemma LowerIdempotent(s: string)
    ensures Lower(Lower(s)) == Lower(s)
  {
    forall i | 0 <= i < |s| ensures Lower(Lower(s))[i] == Lower(s)[i] {
      LowerCharIdempotent(s[i]);
    }
  }

  /** Python's `needle in hay` for strings. */
  function Contains(hay: string, needle: string): bool {
    needle <= hay || (hay != [] && Contains(hay[1..], needle))
  }

  predicate OccursAt(hay: string, needle: string, i: int) {
    0 <= i <= |hay| - |needle| && hay[i..i + |needle|] == needle
  }

  /** `Contains` holds exactly when the needle occurs at some position. */
  lemma {:induction false} ContainsAt(hay: string, needle: string)
    ensures Contains(hay, needle) <==> exists i :: OccursAt(hay, needle, i)
  {
    if needle <= hay {
      assert OccursAt(hay, needle, 0);
    }
    if hay != [] {
      ContainsAt(hay[1..], needle);
      if exists i :: OccursAt(hay, needle, i) {
        var i :| OccursAt(hay, needle, i);
        if i > 0 {
          assert OccursAt(hay[1..], needle, i - 1);
        } else {
          assert needle <= hay;
        }
      }
      if Contains(hay[1..], needle) {
        var i :| OccursAt(hay[1..], needle, i);
        assert OccursAt(hay, needle, i + 1);
      }
    } else if exists i :: OccursAt(hay, needle, i) {
      var i :| OccursAt(hay, needle, i);
      assert needle == [];
    }
  }

  /** Python's `<` on strings: code point by code point, a proper prefix first. */
  function StrLess(a: string, b: string): bool {
    if a == [] then b != []
    else if b == [] then false
    else if a[0] != b[0] then a[0] < b[0]
    else StrLess(a[1..], b[1..])
  }

  function Digit(k: int): char
    requires 0 <= k <= 9
  {
    ('0' as int + k) as char
  }

  /** The "DD.MM" form used by the holiday table. */
  function DayMonthText(day: int, month: int): (r: string)
    requires 1 <= day <= 31 && 1 <= month <= 12
    ensures |r| == 5 && r[2] == '.'
  {
    [Digit(day / 10), Digit(day % 10), '.', Digit(month / 10), Digit(month % 10)]
  }

  /** On strings of the same length five, `StrLess` is the lexicographic
      order of the characters. */
  lemma StrLessFive(a: string, b: string)
    requires |a| == 5 && |b| == 5
    ensures StrLess(a, b) <==>
      a[0] < b[0] || (a[0] == b[0] && (a[1] < b[1] || (a[1] == b[1] &&
      (a[2] < b[2] || (a[2] == b[2] && (a[3] < b[3] || (a[3] == b[3] && a[4] < b[4])))))))
  {
    var a1, b1 := a[1..], b[1..];
    var a2, b2 := a1[1..], b1[1..];
    var a3, b3 := a2[1..], b2[1..];
    var a4, b4 := a3[1..], b3[1..];
    assert a4 == [a[4]] && b4 == [b[4]];
    assert a4[1..] == [] && b4[1..] == [];
    assert StrLess(a4, b4) <==> a[4] < b[4];
    assert StrLess(a3, b3) <==> a[3] < b[3] || (a[3] == b[3] && a[4] < b[4]);
    assert StrLess(a2, b2) <==> a[2] < b[2] || (a[2] == b[2] && StrLess(a3, b3));
    assert StrLess(a1, b1) <==> a[1] < b[1] || (a[1] == b[1] && StrLess(a2, b2));
    assert StrLess(a, b) <==> a[0] < b[0] || (a[0] == b[0] && StrLess(a1, b1));
  }

  /** Comparing two "DD.MM" strings compares the day first, then the month. */
  lemma DayMonthTextOrder(d1: int, m1: int, d2: int, m2: int)
    requires 1 <= d1 <= 31 && 1 <= m1 <= 12 && 1 <= d2 <= 31 && 1 <= m2 <= 12
    ensures StrLess(DayMonthText(d1, m1), DayMonthText(d2, m2)) <==> d1 * 100 + m1 < d2 * 100 + m2
    ensures DayMonthText(d1, m1) == DayMonthText(d2, m2) <==> d1 == d2 && m1 == m2
  {
    var a, b := DayMonthText(d1, m1), DayMonthText(d2, m2);
    var t1, u1, p1, q1 := d1 / 10, d1 % 10, m1 / 10, m1 % 10;
    var t2, u2, p2, q2 := d2 / 10, d2 % 10, m2 / 10, m2 % 10;
    assert d1 == t1 * 10 + u1 && d2 == t2 * 10 + u2;
    assert m1 == p1 * 10 + q1 && m2 == p2 * 10 + q2;
    assert a[0] < b[0] <==> t1 < t2;
    assert a[1] < b[1] <==> u1 < u2;
    assert a[3] < b[3] <==> p1 < p2;
    assert a[4] < b[4] <==> q1 < q2;
    StrLessFive(a, b);
    if a == b {
      assert a[0] == b[0] && a[1] == b[1] && a[3] == b[3] && a[4] == b[4];
    }
  }
}
