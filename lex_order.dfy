/** The ordering Python uses to compare two `str` values: code point by code
    point, and a proper prefix sorts first. Both `sorted(os.listdir(...))` and
    the comparison of language sort keys use it. */
module LexOrder {

  /** `a <= b` on Python strings. */
  predicate LexLe(a: string, b: string)
    ensures a <= b ==> LexLe(a, b)
    ensures LexLe(a, b) && a != [] ==> b != [] && a[0] <= b[0]
  {
    if a == [] then true
    else if b == [] then false
    else if a[0] != b[0] then a[0] < b[0]
    else LexLe(a[1..], b[1..])
  }

  /** The textbook definition: `a` is a prefix of `b`, or the two agree up to
      a first differing position where `a` has the smaller code point. */
  ghost predicate PrefixOrFirstDifferenceSmaller(a: string, b: string)
  {
    a <= b || exists i :: 0 <= i < |a| && i < |b| && a[..i] == b[..i] && a[i] < b[i]
  }

  lemma {:induction false} LexLeIsTextbookOrder(a: string, b: string)
    ensures LexLe(a, b) <==> PrefixOrFirstDifferenceSmaller(a, b)
  {
    if a == [] || b == [] {
    } else if a[0] != b[0] {
      if a[0] < b[0] {
        assert a[..0] == b[..0];
      } else {
        assert !(a <= b);
        forall i | 0 <= i < |a| && i < |b| && a[..i] == b[..i]
          ensures !(a[i] < b[i])
        {
        }
      }
    } else {
      LexLeIsTextbookOrder(a[1..], b[1..]);
      if LexLe(a[1..], b[1..]) {
        if a[1..] <= b[1..] {
          assert a <= b;
        } else {
          var i :| 0 <= i < |a[1..]| && i < |b[1..]| && a[1..][..i] == b[1..][..i] && a[1..][i] < b[1..][i];
          assert a[..i + 1] == [a[0]] + a[1..][..i];
          assert b[..i + 1] == [b[0]] + b[1..][..i];
        }
      } else {
        forall i | 0 <= i < |a| && i < |b| && a[..i] == b[..i]
          ensures !(a[i] < b[i])
        {
          if i > 0 {
            assert a[1..][..i - 1] == a[..i][1..];
            assert b[1..][..i - 1] == b[..i][1..];
            assert a[1..][i - 1] == a[i];
            assert b[1..][i - 1] == b[i];
          }
        }
      }
    }
  }

  lemma {:induction false} LexLeReflexive(a: string)
    ensures LexLe(a, a)
  {
    if a != [] {
      LexLeReflexive(a[1..]);
    }
  }

  lemma {:induction false} LexLeAntisymmetric(a: string, b: string)
    requires LexLe(a, b) && LexLe(b, a)
    ensures a == b
  {
    if a != [] && b != [] {
      LexLeAntisymmetric(a[1..], b[1..]);
      assert a == [a[0]] + a[1..];
      assert b == [b[0]] + b[1..];
    }
  }

  lemma {:induction false} LexLeTransitive(a: string, b: string, c: string)
    requires LexLe(a, b) && LexLe(b, c)
    ensures LexLe(a, c)
  {
    if a != [] && b != [] && c != [] && a[0] == b[0] && b[0] == c[0] {
      LexLeTransitive(a[1..], b[1..], c[1..]);
    }
  }

  lemma {:induction false} LexLeTotal(a: string, b: string)
    ensures LexLe(a, b) || LexLe(b, a)
  {
    if a != [] && b != [] && a[0] == b[0] {
      LexLeTotal(a[1..], b[1..]);
    }
  }
}
