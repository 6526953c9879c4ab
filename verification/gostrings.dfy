/** Models of the functions of Go's `strings` package that the server uses.

    A Go string is a sequence of bytes and `len` counts bytes. Requests are
    ASCII here, and every `char` stands for one byte, so `|s|` is Go's `len(s)`.
    Every separator the server passes is non-empty, which is why the functions
    below require `|sep| > 0` (Go's special case for an empty separator is
    never reached).
 */
module GoStrings {

  datatype Option<+T> = None | Some(value: T)

  /** `sep` occurs in `s` starting at index `i`. */
  predicate OccursAt(s: string, i: nat, sep: string) {
    i + |sep| <= |s| && s[i..i + |sep|] == sep
  }

  /** strings.Contains */
  predicate Contains(s: string, sep: string) {
    exists i: nat :: i <= |s| && OccursAt(s, i, sep)
  }

  /** strings.HasPrefix */
  predicate HasPrefix(s: string, prefix: string) {
    OccursAt(s, 0, prefix)
  }

  /** strings.HasSuffix */
  predicate HasSuffix(s: string, suffix: string) {
    |suffix| <= |s| && s[|s| - |suffix|..] == suffix
  }

  /** An occurrence in `s` at `i >= 1` is an occurrence in `s[1..]` at `i - 1`. */
  lemma OccursAtTail(s: string, sep: string)
    requires |s| > 0
    ensures forall i: nat :: 1 <= i ==> (OccursAt(s, i, sep) <==> OccursAt(s[1..], i - 1, sep))
  {
    forall i: nat | 1 <= i
      ensures OccursAt(s, i, sep) <==> OccursAt(s[1..], i - 1, sep)
    {
      if i + |sep| <= |s| {
        assert s[1..][i - 1..i - 1 + |sep|] == s[i..i + |sep|];
      }
    }
  }

  /** `s` contains `sep` when it starts with it or its tail contains it. */
  lemma ContainsTail(s: string, sep: string)
    requires |s| > 0 && |sep| > 0
    ensures Contains(s, sep) <==> OccursAt(s, 0, sep) || Contains(s[1..], sep)
  {
    OccursAtTail(s, sep);
    if Contains(s[1..], sep) {
      var i: nat :| i <= |s[1..]| && OccursAt(s[1..], i, sep);
      assert OccursAt(s, i + 1, sep);
    }
  }

  /** strings.Index: the first occurrence of `sep` in `s`, None for Go's -1. */
  function IndexOf(s: string, sep: string): (r: Option<nat>)
    requires |sep| > 0
    ensures r.Some? ==> r.value + |sep| <= |s| && OccursAt(s, r.value, sep)
    decreases |s|
  {
    if |s| < |sep| then None
    else if OccursAt(s, 0, sep) then Some(0)
    else
      match IndexOf(s[1..], sep)
      case None => None
      case Some(i) => Some(i + 1)
  }

  /** strings.Index finds an occurrence with none before it, and finds
      nothing exactly when `s` does not contain `sep`. */
  lemma {:induction false} IndexOfFirst(s: string, sep: string)
    requires |sep| > 0
    ensures IndexOf(s, sep).Some? ==> OccursAt(s, IndexOf(s, sep).value, sep)
    ensures IndexOf(s, sep).Some? ==> forall j: nat :: j < IndexOf(s, sep).value ==> !OccursAt(s, j, sep)
    ensures IndexOf(s, sep).None? <==> !Contains(s, sep)
    decreases |s|
  {
    if |s| < |sep| {
      assert forall i: nat :: !OccursAt(s, i, sep);
    } else if !OccursAt(s, 0, sep) {
      IndexOfFirst(s[1..], sep);
      OccursAtTail(s, sep);
      ContainsTail(s, sep);
    }
  }

  /** The first occurrence is the one strings.Index reports. */
  lemma IndexOfIs(s: string, sep: string, i: nat)
    requires |sep| > 0 && OccursAt(s, i, sep)
    requires forall j: nat :: j < i ==> !OccursAt(s, j, sep)
    ensures IndexOf(s, sep) == Some(i)
  {
    IndexOfFirst(s, sep);
  }

  /** Without an occurrence strings.Index reports none. */
  lemma IndexOfNone(s: string, sep: string)
    requires |sep| > 0 && !Contains(s, sep)
    ensures IndexOf(s, sep) == None
  {
    IndexOfFirst(s, sep);
  }

  /** strings.Join */
  function Join(parts: seq<string>, sep: string): string {
    if |parts| == 0 then ""
    else if |parts| == 1 then parts[0]
    else parts[0] + sep + Join(parts[1..], sep)
  }

  /** A part that holds no occurrence of `sep` stays free of it in every prefix. */
  lemma NoOccurrenceBefore(s: string, sep: string, i: nat)
    requires |sep| > 0 && i <= |s|
    requires forall j: nat :: j < i ==> !OccursAt(s, j, sep)
    ensures !Contains(s[..i], sep)
  {
    forall j: nat | j <= i
      ensures !OccursAt(s[..i], j, sep)
    {
      if OccursAt(s[..i], j, sep) {
        assert s[..i][j..j + |sep|] == s[j..j + |sep|];
        assert OccursAt(s, j, sep);
      }
    }
  }

  /** strings.Split for a non-empty separator: the pieces between the
      non-overlapping occurrences of `sep`, found left to right. Even the empty
      string yields one piece, the empty string. */
  function Split(s: string, sep: string): (r: seq<string>)
    requires |sep| > 0
    ensures |r| >= 1 && HasPrefix(s, r[0])
    decreases |s|
  {
    match IndexOf(s, sep)
    case None => [s]
    case Some(i) => [s[..i]] + Split(s[i + |sep|..], sep)
  }

  /** Joining the pieces back gives the input, and no piece contains the
      separator. */
  lemma {:induction false} SplitJoin(s: string, sep: string)
    requires |sep| > 0
    ensures Join(Split(s, sep), sep) == s
    ensures forall k :: 0 <= k < |Split(s, sep)| ==> !Contains(Split(s, sep)[k], sep)
    decreases |s|
  {
    IndexOfFirst(s, sep);
    match IndexOf(s, sep)
    case None =>
    case Some(i) =>
      NoOccurrenceBefore(s, sep, i);
      var rest := Split(s[i + |sep|..], sep);
      SplitJoin(s[i + |sep|..], sep);
      assert s == s[..i] + sep + s[i + |sep|..];
      assert Split(s, sep) == [s[..i]] + rest;
      JoinCons(s[..i], rest, sep);
      assert forall k :: 1 <= k < |Split(s, sep)| ==> Split(s, sep)[k] == rest[k - 1];
  }

  /** The pieces of strings.Split join back to the input. */
  lemma JoinOfSplit(s: string, sep: string)
    requires |sep| > 0
    ensures Join(Split(s, sep), sep) == s
  {
    SplitJoin(s, sep);
  }

  /** strings.TrimPrefix: drops one leading copy of `prefix`, if there is one. */
  function TrimPrefix(s: string, prefix: string): (r: string)
    ensures HasPrefix(s, prefix) ==> prefix + r == s
    ensures !HasPrefix(s, prefix) ==> r == s
  {
    if HasPrefix(s, prefix) then s[|prefix|..] else s
  }

  /** strings.ReplaceAll for a non-empty `pattern`: every non-overlapping
      occurrence of `pattern`, scanning left to right, becomes `replacement`. */
  function ReplaceAll(s: string, pattern: string, replacement: string): (r: string)
    requires |pattern| > 0
    ensures !Contains(s, pattern) ==> r == s
    ensures |replacement| <= |pattern| ==> |r| <= |s|
    ensures |replacement| < |pattern| && Contains(s, pattern) ==> |r| < |s|
    decreases |s|
  {
    if |s| < |pattern| then s
    else if OccursAt(s, 0, pattern) then replacement + ReplaceAll(s[|pattern|..], pattern, replacement)
    else
      ContainsTail(s, pattern);
      [s[0]] + ReplaceAll(s[1..], pattern, replacement)
  }

  /** The bytes strings.TrimSpace removes from an ASCII string. */
  predicate IsSpace(c: char) {
    c == ' ' || c == '\t' || c == '\n' || c == '\r' || c == '\U{000B}' || c == '\U{000C}'
  }

  function TrimLeftSpace(s: string): (r: string)
    ensures |r| <= |s| && r == s[|s| - |r|..]
    ensures forall k :: 0 <= k < |s| - |r| ==> IsSpace(s[k])
    ensures r == [] || !IsSpace(r[0])
    decreases |s|
  {
    if |s| > 0 && IsSpace(s[0]) then TrimLeftSpace(s[1..]) else s
  }

  function TrimRightSpace(s: string): (r: string)
    ensures |r| <= |s| && r == s[..|r|]
    ensures forall k :: |r| <= k < |s| ==> IsSpace(s[k])
    ensures r == [] || !IsSpace(r[|r| - 1])
    decreases |s|
  {
    if |s| > 0 && IsSpace(s[|s| - 1]) then TrimRightSpace(s[..|s| - 1]) else s
  }

  /** strings.TrimSpace on ASCII input: what is left after removing the
      whitespace run at each end. */
  function TrimSpace(s: string): (r: string)
    ensures |r| <= |s|
    ensures r == [] || (!IsSpace(r[0]) && !IsSpace(r[|r| - 1]))
  {
    TrimRightSpace(TrimLeftSpace(s))
  }

  /** `r` is `s[i..j]` with only whitespace outside it. */
  predicate TrimmedSlice(s: string, r: string, i: int, j: int) {
    && 0 <= i <= j <= |s| && r == s[i..j]
    && (forall k :: 0 <= k < i ==> IsSpace(s[k]))
    && (forall k :: j <= k < |s| ==> IsSpace(s[k]))
  }

  /** The trimmed text is a slice of the input with only whitespace on
      either side of it. */
  lemma TrimSpaceIsSlice(s: string)
    ensures exists i, j :: TrimmedSlice(s, TrimSpace(s), i, j)
  {
    var left := TrimLeftSpace(s);
    var r := TrimRightSpace(left);
    var i := |s| - |left|;
    TrimmedOfLeft(s, left, r, i);
    assert TrimSpace(s) == r;
  }

  lemma TrimmedOfLeft(s: string, left: string, r: string, i: nat)
    requires i <= |s| && left == s[i..] && forall k :: 0 <= k < i ==> IsSpace(s[k])
    requires |r| <= |left| && r == left[..|r|] && forall k :: |r| <= k < |left| ==> IsSpace(left[k])
    ensures TrimmedSlice(s, r, i, i + |r|)
  {
    var j := i + |r|;
    assert r == s[i..j];
    forall k | j <= k < |s|
      ensures IsSpace(s[k])
    {
      assert s[k] == left[k - i];
    }
  }

  /** No proper suffix of `sep` is also a prefix of it, so two occurrences of
      `sep` can never overlap. Every single character is border-free, and so
      is "\r\n". */
  predicate BorderFree(sep: string) {
    forall d :: 0 < d < |sep| ==> sep[d..] != sep[..|sep| - d]
  }

  lemma CRLFIsBorderFree()
    ensures BorderFree("\r\n")
  {
    assert "\r\n"[1..] == "\n" && "\r\n"[..1] == "\r";
  }

  /** With a border-free separator, a piece free of `sep` followed by `sep` is
      exactly what strings.Split cuts off first. */
  lemma SplitAfterPiece(p: string, rest: string, sep: string)
    requires |sep| > 0 && BorderFree(sep) && !Contains(p, sep)
    ensures Split(p + sep + rest, sep) == [p] + Split(rest, sep)
  {
    var s := p + sep + rest;
    assert s[|p|..|p| + |sep|] == sep;
    assert OccursAt(s, |p|, sep);
    forall j: nat | j < |p|
      ensures !OccursAt(s, j, sep)
    {
      if j + |sep| <= |p| {
        assert s[j..j + |sep|] == p[j..j + |sep|];
        assert !OccursAt(p, j, sep);
      } else {
        var d := |p| - j;
        assert s[|p|..j + |sep|] == sep[..|sep| - d];
        assert j + |sep| <= |s| ==> s[j..j + |sep|][d..] == s[|p|..j + |sep|];
        assert sep[d..] != sep[..|sep| - d];
      }
    }
    IndexOfIs(s, sep, |p|);
    assert s[..|p|] == p;
    assert s[|p| + |sep|..] == rest;
  }

  /** strings.Split undoes strings.Join: a border-free separator and pieces
      free of it are recovered exactly. */
  lemma {:induction false} SplitOfJoin(parts: seq<string>, sep: string)
    requires |sep| > 0 && BorderFree(sep) && |parts| >= 1
    requires forall k :: 0 <= k < |parts| ==> !Contains(parts[k], sep)
    ensures Split(Join(parts, sep), sep) == parts
    decreases |parts|
  {
    if |parts| == 1 {
      IndexOfNone(parts[0], sep);
    } else {
      SplitOfJoin(parts[1..], sep);
      SplitAfterPiece(parts[0], Join(parts[1..], sep), sep);
      assert parts == [parts[0]] + parts[1..];
    }
  }

  /** A one-character separator occurs exactly where that character does. */
  lemma ContainsChar(s: string, c: char)
    ensures Contains(s, [c]) <==> c in s
  {
    if c in s {
      var i :| 0 <= i < |s| && s[i] == c;
      assert OccursAt(s, i, [c]);
    }
    if Contains(s, [c]) {
      var i: nat :| i <= |s| && OccursAt(s, i, [c]);
      assert s[i..i + 1][0] == s[i];
    }
  }

  /** Text without a carriage return holds no "\r\n". */
  lemma NoCarriageReturnNoCRLF(s: string)
    requires '\r' !in s
    ensures !Contains(s, "\r\n")
  {
    forall i: nat | i <= |s|
      ensures !OccursAt(s, i, "\r\n")
    {
      if i + 2 <= |s| {
        assert s[i..i + 2][0] == s[i];
      }
    }
  }

  /** Joining with one separator after a first piece. */
  lemma JoinCons(head: string, tail: seq<string>, sep: string)
    requires |tail| >= 1
    ensures Join([head] + tail, sep) == head + sep + Join(tail, sep)
  {
    assert ([head] + tail)[1..] == tail;
  }

  /** Prepending a character to the first piece prepends it to the join. */
  lemma JoinPrependChar(c: char, parts: seq<string>, sep: string)
    requires |parts| >= 1
    ensures Join([[c] + parts[0]] + parts[1..], sep) == [c] + Join(parts, sep)
  {
    var q := [[c] + parts[0]] + parts[1..];
    if |parts| > 1 {
      assert q[1..] == parts[1..];
    }
  }

  /** The index found by strings.Index after a first character that does
      not start `sep`. */
  lemma IndexPastChar(s: string, sep: string)
    requires |sep| > 0 && |s| >= 1 && !OccursAt(s, 0, sep)
    ensures IndexOf(s, sep).None? <==> IndexOf(s[1..], sep).None?
    ensures IndexOf(s, sep).Some? ==> IndexOf(s, sep).value == IndexOf(s[1..], sep).value + 1
  {
  }

  /** strings.Split cuts at the first occurrence. */
  lemma {:induction false} SplitAtIndex(s: string, sep: string, i: nat)
    requires |sep| > 0 && IndexOf(s, sep) == Some(i)
    ensures i + |sep| <= |s|
    ensures Split(s, sep) == [s[..i]] + Split(s[i + |sep|..], sep)
  {
  }

  /** When `s` does not start with `sep`, its pieces are those of `s[1..]`
      with the first character put back on the first piece. */
  lemma {:induction false} SplitPastChar(s: string, sep: string)
    requires |sep| > 0 && |s| >= 1 && !OccursAt(s, 0, sep)
    ensures Split(s, sep) == [[s[0]] + Split(s[1..], sep)[0]] + Split(s[1..], sep)[1..]
  {
    var t := s[1..];
    IndexPastChar(s, sep);
    if IndexOf(t, sep).None? {
      assert Split(s, sep) == [s];
      assert Split(t, sep) == [t];
      assert s == [s[0]] + t;
    } else {
      var i := IndexOf(t, sep).value;
      var rest := Split(t[i + |sep|..], sep);
      SplitAtIndex(t, sep, i);
      SplitAtIndex(s, sep, i + 1);
      assert s[..i + 1] == [s[0]] + t[..i];
      assert s[i + 1 + |sep|..] == t[i + |sep|..];
      assert Split(t, sep)[0] == t[..i];
      assert Split(t, sep)[1..] == rest;
    }
  }

  /** A string that starts with `sep` splits into an empty first piece and
      the pieces of what follows the separator. */
  lemma SplitAtStart(s: string, sep: string)
    requires |sep| > 0 && |s| >= |sep| && OccursAt(s, 0, sep)
    ensures Split(s, sep) == [""] + Split(s[|sep|..], sep)
  {
    assert IndexOf(s, sep) == Some(0);
    SplitAtIndex(s, sep, 0);
    assert s[..0] == "";
  }

  /** strings.ReplaceAll agrees with the reference definition
      strings.Join(strings.Split(s, pattern), replacement). */
  lemma {:induction false} ReplaceAllIsJoinOfSplit(s: string, pattern: string, replacement: string)
    requires |pattern| > 0
    ensures ReplaceAll(s, pattern, replacement) == Join(Split(s, pattern), replacement)
    decreases |s|
  {
    if |s| < |pattern| {
      assert IndexOf(s, pattern).None?;
    } else if OccursAt(s, 0, pattern) {
      var t := s[|pattern|..];
      assert ReplaceAll(s, pattern, replacement) == replacement + ReplaceAll(t, pattern, replacement);
      SplitAtStart(s, pattern);
      ReplaceAllIsJoinOfSplit(t, pattern, replacement);
      JoinCons("", Split(t, pattern), replacement);
    } else {
      var t := s[1..];
      assert ReplaceAll(s, pattern, replacement) == [s[0]] + ReplaceAll(t, pattern, replacement);
      ReplaceAllIsJoinOfSplit(t, pattern, replacement);
      SplitPastChar(s, pattern);
      JoinPrependChar(s[0], Split(t, pattern), replacement);
    }
  }

  lemma TrimLeftOfPadded(left: string, w: string)
    requires forall k :: 0 <= k < |left| ==> IsSpace(left[k])
    requires w == [] || !IsSpace(w[0])
    ensures TrimLeftSpace(left + w) == w
  {
    var s := left + w;
    var r := TrimLeftSpace(s);
    assert forall k :: 0 <= k < |left| ==> s[k] == left[k];
    assert w != [] ==> s[|left|] == w[0];
  }

  lemma TrimRightOfPadded(w: string, right: string)
    requires forall k :: 0 <= k < |right| ==> IsSpace(right[k])
    requires w == [] || !IsSpace(w[|w| - 1])
    ensures TrimRightSpace(w + right) == w
  {
    var s := w + right;
    var r := TrimRightSpace(s);
    assert forall k :: |w| <= k < |s| ==> s[k] == right[k - |w|];
    assert w != [] ==> s[|w| - 1] == w[|w| - 1];
  }

  /** strings.TrimSpace removes surrounding whitespace and nothing more: text
      whose ends are not whitespace comes back exactly. */
  lemma TrimSpaceOfPadded(left: string, v: string, right: string)
    requires forall k :: 0 <= k < |left| ==> IsSpace(left[k])
    requires forall k :: 0 <= k < |right| ==> IsSpace(right[k])
    requires v == [] || (!IsSpace(v[0]) && !IsSpace(v[|v| - 1]))
    ensures TrimSpace(left + v + right) == v
  {
    if v == [] {
      assert left + v + right == (left + right) + [];
      TrimLeftOfPadded(left + right, []);
      TrimRightOfPadded([], []);
    } else {
      assert left + v + right == left + (v + right);
      TrimLeftOfPadded(left, v + right);
      TrimRightOfPadded(v, right);
    }
  }

  /** Trimming twice trims no more than trimming once. */
  lemma TrimSpaceIdempotent(s: string)
    ensures TrimSpace(TrimSpace(s)) == TrimSpace(s)
  {
    TrimSpaceOfPadded([], TrimSpace(s), []);
    assert [] + TrimSpace(s) + [] == TrimSpace(s);
  }
}
