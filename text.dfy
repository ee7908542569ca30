/** Joining strings around a separator character and splitting them apart again. */
module Text {

  /** The number of occurrences of c in s. */
  function Occurrences(s: string, c: char): nat
  {
    if |s| == 0 then 0 else (if s[0] == c then 1 else 0) + Occurrences(s[1..], c)
  }

  /**
   The parts with one separator between neighbours; no parts give "" (String.join).
   Joining separator-free parts puts exactly one separator between each two.
  */
  function Join(parts: seq<string>, sep: char): (s: string)
    ensures |parts| > 0 && (forall i :: 0 <= i < |parts| ==> sep !in parts[i]) ==> Occurrences(s, sep) == |parts| - 1
  {
    if |parts| == 0 then ""
    else if |parts| == 1 then
      OccurrencesAbsent(parts[0], sep);
      parts[0]
    else
      var rest := Join(parts[1..], sep);
      OccurrencesConcat(parts[0], [sep] + rest, sep);
      OccurrencesConcat([sep], rest, sep);
      OccurrencesAbsent(parts[0], sep);
      assert forall i :: 1 <= i < |parts| ==> parts[1..][i - 1] == parts[i];
      assert parts[0] + [sep] + rest == parts[0] + ([sep] + rest);
      assert Occurrences([sep], sep) == 1 by { assert [sep][1..] == []; }
      parts[0] + [sep] + rest
  }

  lemma {:induction false} OccurrencesConcat(a: string, b: string, c: char)
    ensures Occurrences(a + b, c) == Occurrences(a, c) + Occurrences(b, c)
  {
    if |a| > 0 {
      OccurrencesConcat(a[1..], b, c);
      assert (a + b)[1..] == a[1..] + b;
    } else {
      assert a + b == b;
    }
  }

  lemma {:induction false} OccurrencesAbsent(a: string, c: char)
    ensures c !in a ==> Occurrences(a, c) == 0
  {
    if |a| > 0 {
      OccurrencesAbsent(a[1..], c);
    }
  }

  /** The fields of s between occurrences of sep, empty fields kept. */
  function Split(s: string, sep: char): (fields: seq<string>)
    ensures |fields| == Occurrences(s, sep) + 1
    ensures forall i :: 0 <= i < |fields| ==> sep !in fields[i]
    ensures Join(fields, sep) == s
  {
    if |s| == 0 then [""]
    else
      var rest := Split(s[1..], sep);
      if s[0] == sep then
        assert ([""] + rest)[1..] == rest;
        [""] + rest
      else
        var fields := [[s[0]] + rest[0]] + rest[1..];
        assert |rest| > 1 ==> fields[1..] == rest[1..] && Join(rest, sep) == rest[0] + [sep] + Join(rest[1..], sep);
        assert s == [s[0]] + s[1..];
        fields
  }

  lemma {:induction false} SplitWithoutSeparator(a: string, sep: char)
    requires sep !in a
    ensures Split(a, sep) == [a]
  {
    if |a| > 0 {
      SplitWithoutSeparator(a[1..], sep);
      assert a == [a[0]] + a[1..];
    }
  }

  lemma {:induction false} SplitAfterField(a: string, t: string, sep: char)
    requires sep !in a
    ensures Split(a + [sep] + t, sep) == [a] + Split(t, sep)
  {
    if |a| == 0 {
      assert a + [sep] + t == [sep] + t;
      assert ([sep] + t)[1..] == t;
    } else {
      SplitAfterField(a[1..], t, sep);
      assert (a + [sep] + t)[1..] == a[1..] + [sep] + t;
      assert a == [a[0]] + a[1..];
    }
  }

  /** Splitting a join of separator-free parts gives back exactly those parts. */
  lemma {:induction false} SplitJoin(parts: seq<string>, sep: char)
    requires |parts| > 0
    requires forall i :: 0 <= i < |parts| ==> sep !in parts[i]
    ensures Split(Join(parts, sep), sep) == parts
  {
    if |parts| == 1 {
      SplitWithoutSeparator(parts[0], sep);
    } else {
      SplitJoin(parts[1..], sep);
      SplitAfterField(parts[0], Join(parts[1..], sep), sep);
      assert parts == [parts[0]] + parts[1..];
    }
  }
}
