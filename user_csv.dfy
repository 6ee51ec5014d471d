/** Reading the input file into UserData records: drop the header line, split
    every other line on ',' (no quoting), and take pieces 0..4 as the five
    fields. The source builds a lazy sequence; a line with fewer than five
    pieces raises an out-of-range index at the moment it is enumerated. */
module UserCsv {
  import opened Options
  import opened Models

  const Comma: char := ','

  /** Number of occurrences of `c` in `s`. */
  function Occurrences(s: string, c: char): (n: nat)
    ensures n <= |s|
    ensures n == 0 <==> c !in s
  {
    if |s| == 0 then 0
    else (if s[0] == c then 1 else 0) + Occurrences(s[1..], c)
  }

  /** Splitting on every occurrence of `sep`, keeping empty pieces, as a
      single-character split without options does: "" gives [""], ",a" gives
      ["", "a"]. */
  function Split(s: string, sep: char): (parts: seq<string>)
    ensures |parts| == Occurrences(s, sep) + 1
    ensures forall i :: 0 <= i < |parts| ==> sep !in parts[i]
  {
    if |s| == 0 then [""]
    else
      var rest := Split(s[1..], sep);
      if s[0] == sep then [""] + rest
      else [[s[0]] + rest[0]] + rest[1..]
  }

  /** The inverse of Split: the pieces glued back with `sep` between them. */
  function Join(parts: seq<string>, sep: char): string
    requires |parts| >= 1
  {
    if |parts| == 1 then parts[0] else parts[0] + [sep] + Join(parts[1..], sep)
  }

  lemma JoinConsHead(c: char, parts: seq<string>, sep: char)
    requires |parts| >= 1
    ensures Join([[c] + parts[0]] + parts[1..], sep) == [c] + Join(parts, sep)
  {
    var ps := [[c] + parts[0]] + parts[1..];
    assert ps[1..] == parts[1..];
  }

  /** Gluing the pieces of a split gives back the line. */
  lemma {:induction false} JoinSplit(s: string, sep: char)
    ensures Join(Split(s, sep), sep) == s
  {
    if |s| > 0 {
      var rest := Split(s[1..], sep);
      JoinSplit(s[1..], sep);
      if s[0] == sep {
        assert ([""] + rest)[1..] == rest;
        assert s == [sep] + s[1..];
      } else {
        JoinConsHead(s[0], rest, sep);
        assert s == [s[0]] + s[1..];
      }
    }
  }

  /** A piece free of `sep` is split off whole at the first `sep`. */
  lemma {:induction false} SplitAtFirst(a: string, b: string, sep: char)
    requires sep !in a
    ensures Split(a + [sep] + b, sep) == [a] + Split(b, sep)
    decreases |a|
  {
    var s := a + [sep] + b;
    if |a| == 0 {
      assert s[1..] == b;
    } else {
      assert s[1..] == a[1..] + [sep] + b;
      SplitAtFirst(a[1..], b, sep);
      assert [a[0]] + a[1..] == a;
    }
  }

  /** A line without `sep` is a single piece. */
  lemma {:induction false} SplitWithoutSeparator(a: string, sep: char)
    requires sep !in a
    ensures Split(a, sep) == [a]
    decreases |a|
  {
    if |a| > 0 {
      SplitWithoutSeparator(a[1..], sep);
      assert [a[0]] + a[1..] == a;
    }
  }

  /** Splitting the join of separator-free pieces gives back the pieces. */
  lemma {:induction false} SplitJoin(parts: seq<string>, sep: char)
    requires |parts| >= 1
    requires forall i :: 0 <= i < |parts| ==> sep !in parts[i]
    ensures Split(Join(parts, sep), sep) == parts
  {
    if |parts| == 1 {
      SplitWithoutSeparator(parts[0], sep);
    } else {
      SplitJoin(parts[1..], sep);
      SplitAtFirst(parts[0], Join(parts[1..], sep), sep);
      assert [parts[0]] + parts[1..] == parts;
    }
  }

  lemma Regroup(a: string, b: string, sep: string, t: string)
    ensures a + sep + b + sep + t == a + sep + (b + sep + t)
  {
  }

  lemma ConsAppend<T>(xs: seq<T>, ys: seq<T>)
    requires |xs| >= 1
    ensures [xs[0]] + (xs[1..] + ys) == xs + ys
  {
    assert [xs[0]] + xs[1..] == xs;
  }

  /** What follows the joined separator-free pieces and one more `sep` is
      split independently of them. */
  lemma {:induction false} SplitJoinThen(parts: seq<string>, tail: string, sep: char)
    requires |parts| >= 1
    requires forall i :: 0 <= i < |parts| ==> sep !in parts[i]
    ensures Split(Join(parts, sep) + [sep] + tail, sep) == parts + Split(tail, sep)
  {
    if |parts| == 1 {
      SplitAtFirst(parts[0], tail, sep);
    } else {
      var rest := Join(parts[1..], sep);
      var inner := rest + [sep] + tail;
      assert Join(parts, sep) + [sep] + tail == parts[0] + [sep] + inner by {
        assert Join(parts, sep) == parts[0] + [sep] + rest;
        Regroup(parts[0], rest, [sep], tail);
      }
      assert forall i :: 0 <= i < |parts| - 1 ==> sep !in parts[1..][i] by {
        forall i | 0 <= i < |parts| - 1 ensures sep !in parts[1..][i] {
          assert parts[1..][i] == parts[i + 1];
        }
      }
      SplitJoinThen(parts[1..], tail, sep);
      SplitAtFirst(parts[0], inner, sep);
      ConsAppend(parts, Split(tail, sep));
    }
  }

  /** One data line as a record: pieces 0..4 of the comma split become the
      five fields; `None` stands for the out-of-range index that a line with
      fewer than five pieces raises. */
  function ParseLine(line: string): (r: Option<UserData>)
    ensures r.Some? <==> Occurrences(line, Comma) >= 4
    ensures r.Some? ==> FieldsOf(r.value) == Split(line, Comma)[..5]
  {
    var parts := Split(line, Comma);
    if |parts| < 5 then None
    else Some(UserData(parts[0], parts[1], parts[2], parts[3], parts[4]))
  }

  /** A record written back as one line of the input file. */
  function Format(u: UserData): string
  {
    Join(FieldsOf(u), Comma)
  }

  predicate CommaFree(u: UserData)
  {
    forall i :: 0 <= i < 5 ==> Comma !in FieldsOf(u)[i]
  }

  /** Writing a record whose fields hold no comma and reading it back gives
      the record. */
  lemma FormatThenParse(u: UserData)
    requires CommaFree(u)
    ensures ParseLine(Format(u)) == Some(u)
  {
    SplitJoin(FieldsOf(u), Comma);
  }

  /** Pieces after the fifth do not influence the record. */
  lemma ExtraPiecesIgnored(u: UserData, extra: string)
    requires CommaFree(u)
    ensures ParseLine(Format(u) + [Comma] + extra) == Some(u)
  {
    SplitJoinThen(FieldsOf(u), extra, Comma);
    assert (FieldsOf(u) + Split(extra, Comma))[..5] == FieldsOf(u);
  }

  /** What enumerating the lazy record sequence yields: every record up to the
      first data line that has fewer than five pieces, and that line's index
      in the file if there is one (the enumeration throws there). */
  datatype Enumeration =
    | Complete(records: seq<UserData>)
    | Aborted(records: seq<UserData>, line: nat)

  /** The records of a file given as its lines, the header (line 0) dropped.
      Defined over the last line so that a prefix of the file gives a prefix
      of the enumeration. */
  function GetUsersToRegister(lines: seq<string>): (e: Enumeration)
    ensures |lines| <= 1 ==> e == Complete([])
    ensures e.Complete? && |lines| >= 1 ==> |e.records| == |lines| - 1
    ensures e.Aborted? ==> 1 <= e.line < |lines| && |e.records| == e.line - 1
    ensures e.Aborted? ==> ParseLine(lines[e.line]).None?
  {
    if |lines| <= 1 then Complete([])
    else
      var last := |lines| - 1;
      match GetUsersToRegister(lines[..last])
      case Aborted(rs, n) => Aborted(rs, n)
      case Complete(rs) =>
        match ParseLine(lines[last])
        case None => Aborted(rs, last)
        case Some(u) => Complete(rs + [u])
  }

  /** Record i is the parse of line i + 1: file order is kept and only the
      header is dropped. */
  lemma {:induction false} RecordsInFileOrder(lines: seq<string>, i: nat)
    requires i < |GetUsersToRegister(lines).records|
    ensures i + 1 < |lines| && ParseLine(lines[i + 1]) == Some(GetUsersToRegister(lines).records[i])
    decreases |lines|
  {
    var last := |lines| - 1;
    var front := lines[..last];
    assert front[..] == lines[..last];
    if i < |GetUsersToRegister(front).records| {
      RecordsInFileOrder(front, i);
      assert front[i + 1] == lines[i + 1];
    }
  }

  /** The enumeration ends early exactly when some data line is short, and
      then at the first such line. */
  lemma {:induction false} AbortsAtFirstShortLine(lines: seq<string>)
    ensures GetUsersToRegister(lines).Complete? <==>
            forall j :: 1 <= j < |lines| ==> ParseLine(lines[j]).Some?
    ensures GetUsersToRegister(lines).Aborted? ==>
            forall j :: 1 <= j < GetUsersToRegister(lines).line ==> ParseLine(lines[j]).Some?
    decreases |lines|
  {
    if |lines| > 1 {
      var last := |lines| - 1;
      var front := lines[..last];
      AbortsAtFirstShortLine(front);
      assert forall j :: 1 <= j < last ==> front[j] == lines[j];
    }
  }

  /** A file whose data lines all have five pieces yields one record per data
      line: n lines give n - 1 records, 0 or 1 lines give none. */
  lemma WellFormedFileYieldsAll(lines: seq<string>)
    requires forall j :: 1 <= j < |lines| ==> Occurrences(lines[j], Comma) >= 4
    ensures GetUsersToRegister(lines).Complete?
    ensures |GetUsersToRegister(lines).records| == if |lines| == 0 then 0 else |lines| - 1
  {
    AbortsAtFirstShortLine(lines);
  }

  /** A data line that parses extends a complete enumeration by its record. */
  lemma EnumerationGrows(lines: seq<string>, j: nat, recs: seq<UserData>, u: UserData)
    requires 1 <= j < |lines|
    requires GetUsersToRegister(lines[..j]) == Complete(recs)
    requires ParseLine(lines[j]) == Some(u)
    ensures GetUsersToRegister(lines[..j + 1]) == Complete(recs + [u])
  {
    assert lines[..j + 1][..j] == lines[..j];
  }

  /** Once the enumeration has thrown, later lines change nothing. */
  lemma {:induction false} AbortedEnumerationIsFinal(lines: seq<string>, j: nat)
    requires 1 <= j <= |lines|
    requires GetUsersToRegister(lines[..j]).Aborted?
    ensures GetUsersToRegister(lines) == GetUsersToRegister(lines[..j])
    decreases |lines|
  {
    if j < |lines| {
      var front := lines[..|lines| - 1];
      assert front[..j] == lines[..j];
      AbortedEnumerationIsFinal(front, j);
    } else {
      assert lines[..j] == lines;
    }
  }

  /** The header line's content never matters. */
  lemma {:induction false} HeaderIgnored(lines: seq<string>, header: string)
    requires |lines| >= 1
    ensures GetUsersToRegister(lines[0 := header]) == GetUsersToRegister(lines)
    decreases |lines|
  {
    if |lines| > 1 {
      var last := |lines| - 1;
      HeaderIgnored(lines[..last], header);
      assert lines[0 := header][..last] == lines[..last][0 := header];
    }
  }
}
