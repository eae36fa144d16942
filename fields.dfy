/** The `_`-separated fields of a plot name, as `str::split("_")` produces them:
    every separator ends a field, so adjacent separators give an empty field and
    the empty string is one empty field. */
module Fields {

  const SEP: char := '_'

  function Split(s: string): (parts: seq<string>)
    ensures |parts| >= 1
    ensures forall i :: 0 <= i < |parts| ==> SEP !in parts[i]
    decreases |s|
  {
    if |s| == 0 then [""]
    else
      var rest := Split(s[1..]);
      if s[0] == SEP then [""] + rest
      else [[s[0]] + rest[0]] + rest[1..]
  }

  /** The fields written back with a separator between each two. */
  function Join(parts: seq<string>): string
    requires |parts| >= 1
  {
    if |parts| == 1 then parts[0] else parts[0] + [SEP] + Join(parts[1..])
  }

  /** Joining the fields gives back the split string. */
  lemma {:induction false} JoinSplit(s: string)
    ensures Join(Split(s)) == s
    decreases |s|
  {
    if |s| > 0 {
      JoinSplit(s[1..]);
      var rest := Split(s[1..]);
      if s[0] != SEP {
        if |rest| > 1 {
          assert ([[s[0]] + rest[0]] + rest[1..])[1..] == rest[1..];
        }
      }
    }
  }

  /** A string with no separator is a single field. */
  lemma {:induction false} SplitNoSep(s: string)
    requires SEP !in s
    ensures Split(s) == [s]
    decreases |s|
  {
    if |s| > 0 {
      assert SEP !in s[1..];
      SplitNoSep(s[1..]);
      assert [s[0]] + s[1..] == s;
    }
  }

  /** A separator between two strings puts the fields of the first before
      those of the second. */
  lemma {:induction false} SplitAppend(a: string, b: string)
    ensures Split(a + [SEP] + b) == Split(a) + Split(b)
    decreases |a|
  {
    var s := a + [SEP] + b;
    if |a| == 0 {
      assert s[1..] == b;
    } else {
      assert s[1..] == a[1..] + [SEP] + b;
      SplitAppend(a[1..], b);
    }
  }

  /** Three separator-free strings joined by separators split back into themselves. */
  lemma SplitThree(a: string, b: string, c: string)
    requires SEP !in a && SEP !in b && SEP !in c
    ensures Split(a + [SEP] + (b + [SEP] + c)) == [a, b, c]
  {
    SplitNoSep(a);
    SplitNoSep(b);
    SplitNoSep(c);
    SplitAppend(b, c);
    SplitAppend(a, b + [SEP] + c);
  }

  /** Four separator-free strings joined by separators split back into themselves. */
  lemma SplitFour(a: string, b: string, c: string, d: string)
    requires SEP !in a && SEP !in b && SEP !in c && SEP !in d
    ensures Split(a + [SEP] + (b + [SEP] + (c + [SEP] + d))) == [a, b, c, d]
  {
    var cd := c + [SEP] + d;
    var bcd := b + [SEP] + cd;
    SplitNoSep(a);
    SplitNoSep(b);
    SplitNoSep(c);
    SplitNoSep(d);
    SplitAppend(c, d);
    SplitAppend(b, cd);
    SplitAppend(a, bcd);
  }

  /** Fields without separators survive a join and a split. */
  lemma {:induction false} SplitJoin(parts: seq<string>)
    requires |parts| >= 1
    requires forall i :: 0 <= i < |parts| ==> SEP !in parts[i]
    ensures Split(Join(parts)) == parts
    decreases |parts|
  {
    if |parts| == 1 {
      SplitNoSep(parts[0]);
    } else {
      SplitJoin(parts[1..]);
      SplitAppend(parts[0], Join(parts[1..]));
      SplitNoSep(parts[0]);
      assert [parts[0]] + parts[1..] == parts;
    }
  }

  /** Number of separators in a string. */
  function SepCount(s: string): nat {
    if |s| == 0 then 0 else (if s[0] == SEP then 1 else 0) + SepCount(s[1..])
  }

  /** There is one field more than there are separators. */
  lemma {:induction false} SplitCount(s: string)
    ensures |Split(s)| == SepCount(s) + 1
    decreases |s|
  {
    if |s| > 0 {
      SplitCount(s[1..]);
    }
  }
}
