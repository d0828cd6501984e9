/** Splitting a string on one separator character and joining fields back,
    with the semantics of .NET's `String.Split(char)`: the result always has
    at least one field, and consecutive or trailing separators give empty
    fields. The wire format splits on '#', file paths on '/', addresses on
    ':', and the descriptions join entries with '\n'. */
module Fields {

  /** The fields of `s` between occurrences of `sep`. */
  function Split(s: string, sep: char): (r: seq<string>)
    ensures |r| >= 1
    ensures forall i :: 0 <= i < |r| ==> sep !in r[i]
    decreases |s|
  {
    if |s| == 0 then [""]
    else
      var rest := Split(s[1..], sep);
      if s[0] == sep then [""] + rest
      else [[s[0]] + rest[0]] + rest[1..]
  }

  /** The fields separated by `sep`; the empty list joins to "". */
  function Join(fs: seq<string>, sep: char): string
    decreases |fs|
  {
    if |fs| == 0 then ""
    else if |fs| == 1 then fs[0]
    else fs[0] + [sep] + Join(fs[1..], sep)
  }

  /** Number of occurrences of `c` in `s`. */
  function Count(s: string, c: char): nat
    decreases |s|
  {
    if |s| == 0 then 0 else (if s[0] == c then 1 else 0) + Count(s[1..], c)
  }

  /** Total number of occurrences of `c` in all the fields. */
  function CountAll(fs: seq<string>, c: char): nat
    decreases |fs|
  {
    if |fs| == 0 then 0 else Count(fs[0], c) + CountAll(fs[1..], c)
  }

  /** The last field of `s` split on `sep`: the text after the last `sep`. */
  function AfterLast(s: string, sep: char): string
  {
    var parts := Split(s, sep);
    parts[|parts| - 1]
  }

  /** Entries joined with '\n' and no trailing newline; "" for no entries. */
  function JoinLines(entries: seq<string>): string
  {
    Join(entries, '\n')
  }

  /** Every entry followed by '\n': what a loop of `s += entry + "\n"`
      accumulates. */
  function Terminated(entries: seq<string>): string
    decreases |entries|
  {
    if |entries| == 0 then ""
    else Terminated(entries[..|entries| - 1]) + entries[|entries| - 1] + "\n"
  }

  lemma {:induction false} CountAppend(a: string, b: string, c: char)
    ensures Count(a + b, c) == Count(a, c) + Count(b, c)
    decreases |a|
  {
    if |a| > 0 {
      assert (a + b)[1..] == a[1..] + b;
      CountAppend(a[1..], b, c);
    } else {
      assert a + b == b;
    }
  }

  lemma {:induction false} CountAbsent(s: string, c: char)
    requires c !in s
    ensures Count(s, c) == 0
    decreases |s|
  {
    if |s| > 0 {
      assert s[0] != c;
      assert forall i :: 0 <= i < |s[1..]| ==> s[1..][i] == s[i + 1];
      CountAbsent(s[1..], c);
    }
  }

  /** Splitting text that starts with a separator-free prefix `a`: `a` is a
      prefix of the first field and the other fields are those of the rest. */
  lemma {:induction false} SplitPrefix(a: string, t: string, sep: char)
    requires sep !in a
    ensures Split(a + t, sep) == [a + Split(t, sep)[0]] + Split(t, sep)[1..]
    decreases |a|
  {
    if |a| == 0 {
      assert a + t == t;
      assert a + Split(t, sep)[0] == Split(t, sep)[0];
      assert [Split(t, sep)[0]] + Split(t, sep)[1..] == Split(t, sep);
    } else {
      assert (a + t)[0] == a[0];
      assert (a + t)[1..] == a[1..] + t;
      assert sep !in a[1..] by {
        assert forall i :: 0 <= i < |a[1..]| ==> a[1..][i] == a[i + 1];
      }
      SplitPrefix(a[1..], t, sep);
      assert [a[0]] + (a[1..] + Split(t, sep)[0]) == a + Split(t, sep)[0];
    }
  }

  /** Text without the separator is a single field. */
  lemma SplitNoSeparator(a: string, sep: char)
    requires sep !in a
    ensures Split(a, sep) == [a]
  {
    SplitPrefix(a, "", sep);
    assert a + "" == a;
  }

  /** A separator-free field followed by a separator and more text. */
  lemma SplitCons(a: string, t: string, sep: char)
    requires sep !in a
    ensures Split(a + [sep] + t, sep) == [a] + Split(t, sep)
  {
    SplitPrefix(a, [sep] + t, sep);
    assert a + [sep] + t == a + ([sep] + t);
    assert ([sep] + t)[0] == sep;
    assert ([sep] + t)[1..] == t;
    assert Split([sep] + t, sep) == [""] + Split(t, sep);
    assert a + "" == a;
  }

  /** Joining separator-free fields and splitting again gives them back. */
  lemma {:induction false} SplitJoin(fs: seq<string>, sep: char)
    requires |fs| >= 1
    requires forall i :: 0 <= i < |fs| ==> sep !in fs[i]
    ensures Split(Join(fs, sep), sep) == fs
    decreases |fs|
  {
    if |fs| == 1 {
      SplitNoSeparator(fs[0], sep);
    } else {
      SplitJoin(fs[1..], sep);
      SplitCons(fs[0], Join(fs[1..], sep), sep);
      assert [fs[0]] + fs[1..] == fs;
    }
  }

  /** Splitting then joining gives the original text back. */
  lemma {:induction false} JoinSplit(s: string, sep: char)
    ensures Join(Split(s, sep), sep) == s
    decreases |s|
  {
    if |s| > 0 {
      var rest := Split(s[1..], sep);
      JoinSplit(s[1..], sep);
      if s[0] == sep {
        assert Split(s, sep) == [""] + rest;
        assert ([""] + rest)[1..] == rest;
        assert s == [sep] + s[1..];
      } else {
        var r := [[s[0]] + rest[0]] + rest[1..];
        assert Split(s, sep) == r;
        assert r[1..] == rest[1..];
        if |rest| == 1 {
          assert s[1..] == rest[0];
          assert s == [s[0]] + s[1..];
        } else {
          assert Join(rest, sep) == rest[0] + [sep] + Join(rest[1..], sep);
          assert s == [s[0]] + s[1..];
        }
      }
    }
  }

  /** The number of fields is one more than the number of separators. */
  lemma {:induction false} SplitLength(s: string, sep: char)
    ensures |Split(s, sep)| == Count(s, sep) + 1
    decreases |s|
  {
    if |s| > 0 {
      SplitLength(s[1..], sep);
    }
  }

  /** The separators of a joined text: one between each pair of fields,
      plus those inside the fields. */
  lemma {:induction false} CountJoin(fs: seq<string>, sep: char)
    requires |fs| >= 1
    ensures Count(Join(fs, sep), sep) == |fs| - 1 + CountAll(fs, sep)
    decreases |fs|
  {
    if |fs| == 1 {
      assert CountAll(fs[1..], sep) == 0;
    } else {
      CountJoin(fs[1..], sep);
      CountAppend(fs[0] + [sep], Join(fs[1..], sep), sep);
      CountAppend(fs[0], [sep], sep);
      assert Count([sep], sep) == 1 by {
        assert [sep][1..] == [];
      }
    }
  }

  /** Joining one more field appends a separator and that field. */
  lemma {:induction false} JoinSnoc(fs: seq<string>, x: string, sep: char)
    requires |fs| >= 1
    ensures Join(fs + [x], sep) == Join(fs, sep) + [sep] + x
    decreases |fs|
  {
    if |fs| == 1 {
      assert fs + [x] == [fs[0], x];
      assert [fs[0], x][1..] == [x];
    } else {
      assert (fs + [x])[1..] == fs[1..] + [x];
      JoinSnoc(fs[1..], x, sep);
    }
  }

  /** The last field contains no separator, and the text is the part up to
      and including the last separator followed by that field. */
  lemma AfterLastIsSuffix(s: string, sep: char)
    ensures sep !in AfterLast(s, sep)
    ensures exists k :: 0 <= k <= |s| && s[k..] == AfterLast(s, sep) && (k == 0 || s[k - 1] == sep)
  {
    var parts := Split(s, sep);
    var n := |parts|;
    JoinSplit(s, sep);
    if n == 1 {
      assert s[0..] == parts[0];
    } else {
      var init := parts[..n - 1];
      assert init + [parts[n - 1]] == parts;
      JoinSnoc(init, parts[n - 1], sep);
      var k := |Join(init, sep)| + 1;
      assert s == Join(init, sep) + [sep] + parts[n - 1];
      assert s[k..] == parts[n - 1];
      assert s[k - 1] == sep;
    }
  }

  /** What `s += entry + "\n"` accumulates, with its last character
      removed, is the entries joined with '\n': no trailing newline. */
  lemma {:induction false} TerminatedIsJoinedLines(entries: seq<string>)
    requires |entries| >= 1
    ensures Terminated(entries) == JoinLines(entries) + "\n"
    decreases |entries|
  {
    var n := |entries|;
    var init := entries[..n - 1];
    if n == 1 {
      assert Terminated(init) == "";
      assert "" + entries[0] == entries[0];
    } else {
      TerminatedIsJoinedLines(init);
      assert init + [entries[n - 1]] == entries;
      JoinSnoc(init, entries[n - 1], '\n');
    }
  }

  /** One more entry appends it and a newline. */
  lemma TerminatedAppend(entries: seq<string>, e: string)
    ensures Terminated(entries + [e]) == Terminated(entries) + e + "\n"
  {
    assert (entries + [e])[..|entries|] == entries;
  }

  /** The loop `s += entry + "\n"` over the entries, followed by the
      removal of the last character when there was an entry: the entries
      joined with '\n', with no trailing newline. */
  method JoinedLines(entries: seq<string>) returns (s: string)
    ensures s == JoinLines(entries)
  {
    var acc := "";
    var k := 0;
    while k < |entries|
      invariant 0 <= k <= |entries|
      invariant acc == Terminated(entries[..k])
    {
      assert entries[..k + 1] == entries[..k] + [entries[k]];
      TerminatedAppend(entries[..k], entries[k]);
      acc := acc + entries[k] + "\n";
      k := k + 1;
    }
    assert entries[..|entries|] == entries;
    if |entries| > 0 {
      TerminatedIsJoinedLines(entries);
      assert (JoinLines(entries) + "\n")[..|JoinLines(entries)|] == JoinLines(entries);
      acc := acc[..|acc| - 1];
    }
    s := acc;
  }

  /** Entries without '\n' are recovered one per line. */
  lemma LinesRoundTrip(entries: seq<string>)
    requires |entries| >= 1
    requires forall i :: 0 <= i < |entries| ==> '\n' !in entries[i]
    ensures Split(JoinLines(entries), '\n') == entries
  {
    SplitJoin(entries, '\n');
  }
}
