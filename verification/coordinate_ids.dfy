/** `createCoordinateBasedId`: an identifier for a point, built from its
    latitude and longitude and suffixed with the number of keys of the store
    that match the regular expression `^<lat>_<lng>`.

    The base key is spliced into the expression unescaped, so each `.` of the
    decimal renderings matches any character except a line terminator (the
    expression carries no `s` flag); every other character of a rendering is
    taken literally. How JavaScript renders a number is left
    abstract (the parameter `show`); the suffix, a non-negative integer, is
    rendered in plain decimal. */
module CoordinateIds {

  // ---------------------------------------------------------------------------
  // Decimal rendering of the suffix

  predicate IsDigit(c: char)
  {
    '0' <= c <= '9'
  }

  predicate AllDigits(s: string)
  {
    forall i :: 0 <= i < |s| ==> IsDigit(s[i])
  }

  function DigitChar(d: nat): (c: char)
    requires d < 10
    ensures IsDigit(c) && (c as int) - ('0' as int) == d
  {
    (('0' as int) + d) as char
  }

  /** The decimal rendering of a non-negative integer, without leading zeros. */
  function NatToString(n: nat): (s: string)
    ensures |s| > 0 && AllDigits(s)
    ensures s[0] == '0' <==> n == 0
    ensures |s| == 1 || s[0] != '0'
    decreases n
  {
    if n < 10 then [DigitChar(n)] else NatToString(n / 10) + [DigitChar(n % 10)]
  }

  /** The value of a string of decimal digits. */
  function ParseNat(s: string): nat
    requires AllDigits(s)
    decreases |s|
  {
    if |s| == 0 then 0
    else ParseNat(s[..|s| - 1]) * 10 + ((s[|s| - 1] as int) - ('0' as int))
  }

  lemma {:induction false} ParseNatToString(n: nat)
    ensures ParseNat(NatToString(n)) == n
    decreases n
  {
    if n >= 10 {
      var s := NatToString(n);
      assert s[..|s| - 1] == NatToString(n / 10);
      ParseNatToString(n / 10);
    }
  }

  lemma NatToStringInjective(m: nat, n: nat)
    requires NatToString(m) == NatToString(n)
    ensures m == n
  {
    ParseNatToString(m);
    ParseNatToString(n);
  }

  // ---------------------------------------------------------------------------
  // Matching

  /** The characters a regular-expression `.` does not match when the
      expression has no `s` flag. */
  predicate IsLineTerminator(c: char)
  {
    c == '\n' || c == '\r' || c == '\U{2028}' || c == '\U{2029}'
  }

  /** One character of the pattern against one of the subject: a literal
      matches itself, `.` matches anything but a line terminator. */
  predicate CharMatches(p: char, c: char)
  {
    p == c || (p == '.' && !IsLineTerminator(c))
  }

  /** `new RegExp('^' + pattern).test(s)` for a pattern whose only
      metacharacter is `.`. */
  predicate MatchesAnchored(pattern: string, s: string)
  {
    |pattern| <= |s| && forall i :: 0 <= i < |pattern| ==> CharMatches(pattern[i], s[i])
  }

  /** The keys of the store that match `^base`. */
  function MatchingKeys(keys: set<string>, base: string): (m: set<string>)
    ensures m <= keys
    ensures forall k :: k in m <==> k in keys && MatchesAnchored(base, k)
  {
    set k | k in keys && MatchesAnchored(base, k)
  }

  lemma {:induction false} SubsetCardinality<T>(a: set<T>, b: set<T>)
    requires a <= b
    ensures |a| <= |b|
    decreases |b|
  {
    if b != {} {
      var x :| x in b;
      SubsetCardinality(a - {x}, b - {x});
    }
  }

  /** The suffix: how many keys of the store match `^base`. */
  function MatchCount(keys: set<string>, base: string): (n: nat)
    ensures n <= |keys|
    ensures n == 0 <==> forall k :: k in keys ==> !MatchesAnchored(base, k)
  {
    var m := MatchingKeys(keys, base);
    SubsetCardinality(m, keys);
    |m|
  }

  // ---------------------------------------------------------------------------
  // The identifier

  /** `${latitude}_${longitude}`. */
  function BaseKey(latitude: real, longitude: real, show: real -> string): string
  {
    show(latitude) + "_" + show(longitude)
  }

  /** The identifier for `base` given the keys already in the store. */
  function NextId(keys: set<string>, base: string): (id: string)
    ensures |id| > |base| + 1
    ensures id[..|base|] == base && id[|base|] == '-'
    ensures AllDigits(id[|base| + 1..]) && ParseNat(id[|base| + 1..]) == MatchCount(keys, base)
    ensures |id| == |base| + 2 || id[|base| + 1] != '0'
    ensures MatchesAnchored(base, id)
  {
    var n := MatchCount(keys, base);
    var id := base + "-" + NatToString(n);
    assert id[|base| + 1..] == NatToString(n);
    ParseNatToString(n);
    id
  }

  /** `createCoordinateBasedId(state, latitude, longitude)` with `keys` the
      keys of `state`. */
  function CreateCoordinateBasedId(keys: set<string>, latitude: real, longitude: real, show: real -> string)
    : (id: string)
    ensures var base := BaseKey(latitude, longitude, show);
            && |id| > |base| + 1
            && id[..|base|] == base && id[|base|] == '-'
            && AllDigits(id[|base| + 1..])
            && (|id| == |base| + 2 || id[|base| + 1] != '0')
            && ParseNat(id[|base| + 1..]) == MatchCount(keys, base) <= |keys|
  {
    NextId(keys, BaseKey(latitude, longitude, show))
  }

  // ---------------------------------------------------------------------------
  // Properties

  /** Storing a new key that matches `^base` raises the count by one; storing
      any key never lowers a count. */
  lemma MatchCountInsert(keys: set<string>, base: string, k: string)
    ensures MatchCount(keys, base) <= MatchCount(keys + {k}, base)
    ensures k !in keys && MatchesAnchored(base, k) ==> MatchCount(keys + {k}, base) == MatchCount(keys, base) + 1
  {
    if k !in keys && MatchesAnchored(base, k) {
      assert MatchingKeys(keys + {k}, base) == MatchingKeys(keys, base) + {k};
    } else {
      SubsetCardinality(MatchingKeys(keys, base), MatchingKeys(keys + {k}, base));
    }
  }

  /** Once a generated id that was not yet a key is stored, asking again for
      the same coordinates gives the next suffix. */
  lemma NextSuffix(keys: set<string>, latitude: real, longitude: real, show: real -> string)
    requires CreateCoordinateBasedId(keys, latitude, longitude, show) !in keys
    ensures var base := BaseKey(latitude, longitude, show);
            var id := CreateCoordinateBasedId(keys, latitude, longitude, show);
            CreateCoordinateBasedId(keys + {id}, latitude, longitude, show)
              == base + "-" + NatToString(MatchCount(keys, base) + 1)
  {
    var base := BaseKey(latitude, longitude, show);
    MatchCountInsert(keys, base, NextId(keys, base));
  }

  /** Two renderings `b1-d1` and `b2-d2` with digit-only suffixes are equal
      only when both parts are: the last `-` fixes the split. */
  lemma SplitAtLastDash(b1: string, d1: string, b2: string, d2: string)
    requires AllDigits(d1) && AllDigits(d2)
    requires b1 + "-" + d1 == b2 + "-" + d2
    ensures b1 == b2 && d1 == d2
  {
    var s := b1 + "-" + d1;
    assert s == b2 + "-" + d2;
    assert s[|b1|] == '-' && s[|b2|] == '-';
    assert forall i :: |b1| < i < |s| ==> s[i] == d1[i - |b1| - 1];
    assert forall i :: |b2| < i < |s| ==> s[i] == d2[i - |b2| - 1];
    assert |b1| == |b2|;
    assert b1 == s[..|b1|] && b2 == s[..|b2|];
    assert d1 == s[|b1| + 1..] && d2 == s[|b2| + 1..];
  }

  /** Every key of the form `b-m` has a suffix below the current count for
      `b`. This holds of the empty store and is kept by generate-and-insert. */
  ghost predicate SuffixesBelowCount(keys: set<string>)
  {
    forall b: string, m: nat :: b + "-" + NatToString(m) in keys ==> m < MatchCount(keys, b)
  }

  lemma EmptyStoreSuffixes()
    ensures SuffixesBelowCount({})
  {}

  /** In a store where suffixes stay below their counts, the generated id is
      not yet a key, and storing it keeps the suffixes below their counts. */
  lemma GeneratedIdIsFresh(keys: set<string>, base: string)
    requires SuffixesBelowCount(keys)
    ensures NextId(keys, base) !in keys
    ensures SuffixesBelowCount(keys + {NextId(keys, base)})
  {
    var n := MatchCount(keys, base);
    var id := NextId(keys, base);
    assert id == base + "-" + NatToString(n);
    var keys' := keys + {id};
    MatchCountInsert(keys, base, id);
    forall b: string, m: nat | b + "-" + NatToString(m) in keys'
      ensures m < MatchCount(keys', b)
    {
      MatchCountInsert(keys, b, id);
      if b + "-" + NatToString(m) !in keys {
        SplitAtLastDash(b, NatToString(m), base, NatToString(n));
        NatToStringInjective(m, n);
      }
    }
  }

  /** The ids handed out for `bases`, one after another, each stored before the
      next is generated. */
  function GenerateAll(keys: set<string>, bases: seq<string>): (ids: seq<string>)
    ensures |ids| == |bases|
    decreases |bases|
  {
    if |bases| == 0 then []
    else
      var id := NextId(keys, bases[0]);
      [id] + GenerateAll(keys + {id}, bases[1..])
  }

  /** Repeated generate-and-insert, starting from a store whose suffixes stay
      below their counts (the empty store is one), hands out pairwise distinct
      ids none of which was already a key. */
  lemma {:induction false} GenerateAllDistinct(keys: set<string>, bases: seq<string>)
    requires SuffixesBelowCount(keys)
    ensures forall i :: 0 <= i < |bases| ==> GenerateAll(keys, bases)[i] !in keys
    ensures forall i, j :: 0 <= i < j < |bases| ==> GenerateAll(keys, bases)[i] != GenerateAll(keys, bases)[j]
    decreases |bases|
  {
    if |bases| > 0 {
      var id := NextId(keys, bases[0]);
      GeneratedIdIsFresh(keys, bases[0]);
      GenerateAllDistinct(keys + {id}, bases[1..]);
      var ids := GenerateAll(keys, bases);
      assert ids == [id] + GenerateAll(keys + {id}, bases[1..]);
      forall i | 0 <= i < |bases| ensures ids[i] !in keys {
        if i > 0 { assert ids[i] == GenerateAll(keys + {id}, bases[1..])[i - 1]; }
      }
      forall i, j | 0 <= i < j < |bases| ensures ids[i] != ids[j] {
        assert ids[j] == GenerateAll(keys + {id}, bases[1..])[j - 1];
        if i > 0 { assert ids[i] == GenerateAll(keys + {id}, bases[1..])[i - 1]; }
      }
    }
  }

  /** `39.74_-105.1` on an empty store gets suffix 0, and once stored, the next
      id for the same point gets suffix 1. */
  lemma FirstAndSecondId()
    ensures NextId({}, "39.74_-105.1") == "39.74_-105.1-0"
    ensures NextId({"39.74_-105.1-0"}, "39.74_-105.1") == "39.74_-105.1-1"
  {
    assert MatchesAnchored("39.74_-105.1", "39.74_-105.1-0");
    assert MatchingKeys({"39.74_-105.1-0"}, "39.74_-105.1") == {"39.74_-105.1-0"};
  }

  /** The unescaped `.` is a wildcard: the key of the point (105, 2) counts
      towards the point (1.5, 2), whose base `1.5_2` matches `105_2-0`. */
  lemma DotMatchesAnyCharacter()
    ensures MatchCount({"105_2-0"}, "1.5_2") == 1
    ensures NextId({"105_2-0"}, "1.5_2") == "1.5_2-1"
  {
    assert MatchesAnchored("1.5_2", "105_2-0");
    assert MatchingKeys({"105_2-0"}, "1.5_2") == {"105_2-0"};
  }

  /** A line terminator stops the wildcard: `1\n5_2-0` does not match
      `^1.5_2`, so the point (1.5, 2) still gets suffix 0. */
  lemma DotSkipsLineTerminator()
    ensures MatchCount({"1\n5_2-0"}, "1.5_2") == 0
    ensures NextId({"1\n5_2-0"}, "1.5_2") == "1.5_2-0"
  {
    assert "1.5_2"[1] == '.' && "1\n5_2-0"[1] == '\n';
    assert !CharMatches("1.5_2"[1], "1\n5_2-0"[1]);
    assert !MatchesAnchored("1.5_2", "1\n5_2-0");
    assert MatchingKeys({"1\n5_2-0"}, "1.5_2") == {};
  }

  /** A generated id can already be a key when the store holds a key the
      generator did not produce in sequence: with `1_2-1` stored alone, the
      point (1, 2) is given `1_2-1` again. */
  lemma CollisionOutsideInvariant()
    ensures NextId({"1_2-1"}, "1_2") == "1_2-1"
    ensures !SuffixesBelowCount({"1_2-1"})
  {
    assert MatchesAnchored("1_2", "1_2-1");
    assert MatchingKeys({"1_2-1"}, "1_2") == {"1_2-1"};
    assert "1_2" + "-" + NatToString(1) == "1_2-1";
  }
}
