/** Byte strings as the Go code handles them: splitting and joining on one
    separator byte, the lexical clean-up of rooted paths, the byte-wise order
    of bytes.Compare and the decimal rendering of fmt.Sprint. A Go string or
    []byte is a `string` here, one char per byte. */
module Text {
  type Bytes = string

  function Split(s: string, sep: char): (parts: seq<string>)
    ensures |parts| >= 1
  {
    if s == "" then [""]
    else
      var rest := Split(s[1..], sep);
      if s[0] == sep then [""] + rest else OntoFirst(s[0], rest)
  }

  /** The same parts with a character in front of the first. */
  function OntoFirst(c: char, parts: seq<string>): (longer: seq<string>)
    requires parts != []
    ensures longer != []
  {
    [[c] + parts[0]] + parts[1..]
  }

  function Join(parts: seq<string>, sep: char): string {
    if |parts| == 0 then ""
    else if |parts| == 1 then parts[0]
    else parts[0] + [sep] + Join(parts[1..], sep)
  }

  ghost predicate Free(parts: seq<string>, sep: char) {
    forall i | 0 <= i < |parts| :: sep !in parts[i]
  }

  lemma {:induction false} SplitFree(s: string, sep: char)
    ensures Free(Split(s, sep), sep)
  {
    if s != "" {
      SplitFree(s[1..], sep);
      var rest := Split(s[1..], sep);
      assert forall i | 0 <= i < |rest| :: sep !in rest[i];
    }
  }

  lemma JoinCons(first: string, rest: seq<string>, sep: char)
    requires rest != []
    ensures Join([first] + rest, sep) == first + [sep] + Join(rest, sep)
  {
  }

  lemma JoinPrepend(prefix: string, parts: seq<string>, sep: char)
    requires parts != []
    ensures Join([prefix + parts[0]] + parts[1..], sep) == prefix + Join(parts, sep)
  {
  }

  /** strings.Join undoes strings.Split. */
  lemma {:induction false} JoinSplit(s: string, sep: char)
    ensures Join(Split(s, sep), sep) == s
  {
    if s != "" {
      var rest := Split(s[1..], sep);
      JoinSplit(s[1..], sep);
      assert s == [s[0]] + s[1..];
      if s[0] == sep {
        JoinCons("", rest, sep);
      } else {
        JoinPrepend([s[0]], rest, sep);
      }
    }
  }

  lemma {:induction false} SplitOne(s: string, sep: char)
    requires sep !in s
    ensures Split(s, sep) == [s]
  {
    if s != "" {
      SplitOne(s[1..], sep);
      assert [s[0]] + s[1..] == s;
    }
  }

  lemma SplitCons(c: char, rest: string, sep: char)
    ensures Split([c] + rest, sep) == if c == sep then [""] + Split(rest, sep) else OntoFirst(c, Split(rest, sep))
  {
    assert ([c] + rest)[1..] == rest;
  }

  lemma OntoFirstConcat(c: char, a: seq<string>, b: seq<string>)
    requires a != []
    ensures OntoFirst(c, a + b) == OntoFirst(c, a) + b
    ensures [""] + (a + b) == [""] + a + b
  {
    assert (a + b)[1..] == a[1..] + b;
  }

  /** Splitting on both sides of a separator is splitting each side. */
  lemma {:induction false} SplitConcat(a: string, b: string, sep: char)
    ensures Split(a + [sep] + b, sep) == Split(a, sep) + Split(b, sep)
    decreases |a|
  {
    if a == "" {
      SplitCons(sep, b, sep);
      assert a + [sep] + b == [sep] + b;
    } else {
      SplitStep(a[0], a[1..], b, sep);
      assert a == [a[0]] + a[1..];
    }
  }

  lemma {:induction false} SplitStep(c: char, a: string, b: string, sep: char)
    ensures Split([c] + a + [sep] + b, sep) == Split([c] + a, sep) + Split(b, sep)
    decreases |a| + 1, 0
  {
    hide Split, OntoFirst;
    SplitConcat(a, b, sep);
    SplitCons(c, a, sep);
    SplitCons(c, a + [sep] + b, sep);
    OntoFirstConcat(c, Split(a, sep), Split(b, sep));
    assert [c] + a + [sep] + b == [c] + (a + [sep] + b);
  }

  /** strings.Split undoes strings.Join on separator-free parts. */
  lemma {:induction false} SplitJoin(parts: seq<string>, sep: char)
    requires parts != [] && Free(parts, sep)
    ensures Split(Join(parts, sep), sep) == parts
  {
    if |parts| == 1 {
      SplitOne(parts[0], sep);
    } else {
      SplitOne(parts[0], sep);
      SplitConcat(parts[0], Join(parts[1..], sep), sep);
      SplitJoin(parts[1..], sep);
    }
  }

  /** strings.SplitN(s, sep, 2): cut at the first separator, if there is one. */
  function SplitTwo(s: string, sep: char): (parts: seq<string>)
    ensures 1 <= |parts| <= 2
  {
    if s == "" then [""]
    else if s[0] == sep then ["", s[1..]]
    else
      var rest := SplitTwo(s[1..], sep);
      [[s[0]] + rest[0]] + rest[1..]
  }

  /** A segment that path.Clean leaves where it is. */
  predicate Plain(segment: string) {
    segment != "" && segment != "." && segment != ".."
  }

  predicate AllPlain(segments: seq<string>) {
    forall i | 0 <= i < |segments| :: Plain(segments[i])
  }

  /** path.Clean on the segments of a rooted path: empty and "." segments go,
      ".." removes the last segment kept so far (and nothing at the root). */
  function CleanOnto(kept: seq<string>, segments: seq<string>): seq<string>
    decreases |segments|
  {
    if segments == [] then kept
    else if Plain(segments[0]) then CleanOnto(kept + [segments[0]], segments[1..])
    else if segments[0] == ".." && kept != [] then CleanOnto(kept[..|kept| - 1], segments[1..])
    else CleanOnto(kept, segments[1..])
  }

  /** path.Clean of a path that starts with "/". */
  function CleanRooted(s: string): string {
    "/" + Join(CleanOnto([], Split(s, '/')), '/')
  }

  lemma {:induction false} CleanOntoPlain(kept: seq<string>, segments: seq<string>)
    requires AllPlain(kept) && Free(kept, '/') && Free(segments, '/')
    ensures AllPlain(CleanOnto(kept, segments)) && Free(CleanOnto(kept, segments), '/')
    decreases |segments|
  {
    if segments != [] {
      assert Free(segments[1..], '/');
      if Plain(segments[0]) {
        CleanOntoPlain(kept + [segments[0]], segments[1..]);
      } else if segments[0] == ".." && kept != [] {
        CleanOntoPlain(kept[..|kept| - 1], segments[1..]);
      } else {
        CleanOntoPlain(kept, segments[1..]);
      }
    }
  }

  /** Plain segments at the end of a path survive cleaning unchanged. */
  lemma {:induction false} CleanOntoSuffix(kept: seq<string>, segments: seq<string>, suffix: seq<string>)
    requires AllPlain(suffix)
    ensures CleanOnto(kept, segments + suffix) == CleanOnto(kept, segments) + suffix
    decreases |segments| + |suffix|
  {
    if segments != [] {
      assert (segments + suffix)[1..] == segments[1..] + suffix;
      if Plain(segments[0]) {
        CleanOntoSuffix(kept + [segments[0]], segments[1..], suffix);
      } else if segments[0] == ".." && kept != [] {
        CleanOntoSuffix(kept[..|kept| - 1], segments[1..], suffix);
      } else {
        CleanOntoSuffix(kept, segments[1..], suffix);
      }
    } else if suffix != [] {
      assert segments + suffix == suffix;
      CleanOntoSuffix(kept + [suffix[0]], [], suffix[1..]);
      assert [] + suffix[1..] == suffix[1..];
      assert kept + [suffix[0]] + suffix[1..] == kept + suffix;
    } else {
      assert segments + suffix == [];
    }
  }

  lemma {:induction false} CleanConcat(kept: seq<string>, a: seq<string>, b: seq<string>)
    ensures CleanOnto(kept, a + b) == CleanOnto(CleanOnto(kept, a), b)
    decreases |a|
  {
    if a == [] {
      assert a + b == b;
    } else {
      assert (a + b)[1..] == a[1..] + b && (a + b)[0] == a[0];
      if Plain(a[0]) {
        CleanConcat(kept + [a[0]], a[1..], b);
      } else if a[0] == ".." && kept != [] {
        CleanConcat(kept[..|kept| - 1], a[1..], b);
      } else {
        CleanConcat(kept, a[1..], b);
      }
    }
  }

  /** Cleaning drops empty and "." segments wherever they stand. */
  lemma {:induction false} CleanDropsDots(a: seq<string>, dot: string, b: seq<string>)
    requires dot == "" || dot == "."
    ensures CleanOnto([], a + [dot] + b) == CleanOnto([], a + b)
  {
    CleanConcat([], a + [dot], b);
    CleanConcat([], a, [dot]);
    CleanConcat([], a, b);
    assert [dot][1..] == [];
  }

  /** ".." takes back the plain segment in front of it, and nothing at the root. */
  lemma {:induction false} CleanTakesBack(a: seq<string>, segment: string, b: seq<string>)
    requires Plain(segment)
    ensures CleanOnto([], a + [segment, ".."] + b) == CleanOnto([], a + b)
    ensures CleanOnto([], [".."] + b) == CleanOnto([], b)
  {
    var kept := CleanOnto([], a);
    CleanConcat([], a + [segment, ".."], b);
    CleanConcat([], a, [segment, ".."]);
    CleanConcat([], a, b);
    CleanConcat([], [".."], b);
    assert [segment, ".."][1..] == [".."] && [".."][1..] == [];
    assert (kept + [segment])[..|kept|] == kept;
  }

  /** bytes.Compare(a, b) < 0 */
  predicate BytesLess(a: Bytes, b: Bytes) {
    b != "" && (a == "" || a[0] < b[0] || (a[0] == b[0] && BytesLess(a[1..], b[1..])))
  }

  /** One byte string is less than another exactly when, behind a common front, it ends or has
      the smaller byte. */
  lemma {:induction false} BytesLessExactly(a: Bytes, b: Bytes)
    ensures BytesLess(a, b) <==>
      exists n: nat :: n < |b| && n <= |a| && a[..n] == b[..n] && (n == |a| || a[n] < b[n])
  {
    forall n: nat | 0 < n <= |a| && n <= |b| && a[..n] == b[..n] ensures a[0] == b[0] {
      assert a[0] == a[..n][0] && b[0] == b[..n][0];
    }
    if b == "" {
    } else if a == "" || a[0] != b[0] {
      assert a[..0] == b[..0];
    } else {
      BytesLessExactly(a[1..], b[1..]);
      if BytesLess(a, b) {
        var m: nat :| m < |b[1..]| && m <= |a[1..]| && a[1..][..m] == b[1..][..m]
          && (m == |a[1..]| || a[1..][m] < b[1..][m]);
        assert a[..m + 1] == [a[0]] + a[1..][..m] && b[..m + 1] == [b[0]] + b[1..][..m];
      }
      if n: nat :| n < |b| && n <= |a| && a[..n] == b[..n] && (n == |a| || a[n] < b[n]) {
        assert n > 0;
        assert a[1..][..n - 1] == a[..n][1..] && b[1..][..n - 1] == b[..n][1..];
      }
    }
  }

  /** bytes.Compare decides every pair of different byte strings one way only. */
  lemma {:induction false} BytesTotal(a: Bytes, b: Bytes)
    ensures !(BytesLess(a, b) && BytesLess(b, a))
    ensures a != b <==> (BytesLess(a, b) || BytesLess(b, a))
  {
    if a != "" && b != "" && a[0] == b[0] {
      BytesTotal(a[1..], b[1..]);
      assert a == [a[0]] + a[1..] && b == [b[0]] + b[1..];
    }
  }

  lemma {:induction false} BytesTransitive(a: Bytes, b: Bytes, c: Bytes)
    requires BytesLess(a, b) && BytesLess(b, c)
    ensures BytesLess(a, c)
  {
    if a != "" && a[0] == b[0] && b[0] == c[0] {
      BytesTransitive(a[1..], b[1..], c[1..]);
    }
  }

  /** fmt.Sprint of an unsigned integer. */
  function Decimal(n: nat): (digits: string)
    ensures digits != ""
  {
    if n < 10 then [DIGITS[n]] else Decimal(n / 10) + [DIGITS[n % 10]]
  }

  const DIGITS: string := "0123456789"
}
