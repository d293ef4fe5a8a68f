/** The .NET string operations the SDK relies on, on `string` (= `seq<char>`):
    `Split('\n')` with and without `RemoveEmptyEntries`, `IsNullOrWhiteSpace`,
    `IsNullOrEmpty`, `TrimEnd`, `StartsWith`, `Substring` and `string.Join("", ...)`. */
module Text {
  import opened Common

  /** `string.IsNullOrEmpty`. */
  predicate IsNullOrEmpty(s: Option<string>) {
    s.None? || s.value == []
  }

  /** `char.IsWhiteSpace`: the Unicode space separators, the line and paragraph
      separators, and the control characters U+0009..U+000D, U+0085. */
  predicate IsWhiteSpace(c: char) {
    || c == ' '
    || ('\t' <= c <= '\r')
    || c == '\U{85}' || c == '\U{A0}' || c == '\U{1680}'
    || ('\U{2000}' <= c <= '\U{200A}')
    || c == '\U{2028}' || c == '\U{2029}' || c == '\U{202F}' || c == '\U{205F}' || c == '\U{3000}'
  }

  /** `string.IsNullOrWhiteSpace` on a non-null string: every character is white space
      (so the empty string counts as blank). */
  predicate IsBlank(s: string) {
    forall i :: 0 <= i < |s| ==> IsWhiteSpace(s[i])
  }

  /** Scanning `s` for '\n' while the piece `cur` is still open: the pieces that a
      '\n' closes, in order, and the piece left open at the end of `s`. */
  function Scan(cur: string, s: string): (r: (seq<string>, string))
    decreases |s|
  {
    if s == [] then ([], cur)
    else if s[0] == '\n' then
      var t := Scan([], s[1..]);
      ([cur] + t.0, t.1)
    else Scan(cur + [s[0]], s[1..])
  }

  /** The pieces of `cur + s` between '\n' characters, when `cur` is already open. */
  function SplitFrom(cur: string, s: string): (r: seq<string>)
    ensures |r| >= 1
  {
    var t := Scan(cur, s);
    t.0 + [t.1]
  }

  /** `s.Split('\n')`: the maximal '\n'-free pieces of `s`, empty ones included. */
  function Split(s: string): (r: seq<string>)
    ensures |r| >= 1
  {
    SplitFrom([], s)
  }

  /** `string.Join("\n", ps)`. */
  function JoinLines(ps: seq<string>): string
    requires |ps| >= 1
    decreases |ps|
  {
    if |ps| == 1 then ps[0] else ps[0] + "\n" + JoinLines(ps[1..])
  }

  predicate NoNewline(s: string) {
    forall i :: 0 <= i < |s| ==> s[i] != '\n'
  }

  /** Scanning continues over a concatenation: scanning `a + b` is scanning `a`,
      then scanning `b` from the piece `a` left open. */
  lemma {:induction false} ScanAppend(cur: string, a: string, b: string)
    ensures Scan(cur, a + b).0 == Scan(cur, a).0 + Scan(Scan(cur, a).1, b).0
    ensures Scan(cur, a + b).1 == Scan(Scan(cur, a).1, b).1
    decreases |a|
  {
    if a == [] {
      assert a + b == b;
    } else {
      assert (a + b)[0] == a[0];
      assert (a + b)[1..] == a[1..] + b;
      if a[0] == '\n' {
        ScanAppend([], a[1..], b);
      } else {
        ScanAppend(cur + [a[0]], a[1..], b);
      }
    }
  }

  /** A text without '\n' only extends the open piece. */
  lemma {:induction false} ScanNoNewline(cur: string, s: string)
    requires NoNewline(s)
    ensures Scan(cur, s) == ([], cur + s)
    decreases |s|
  {
    if s != [] {
      ScanNoNewline(cur + [s[0]], s[1..]);
      assert cur + [s[0]] + s[1..] == cur + s;
    } else {
      assert cur + s == cur;
    }
  }

  lemma {:induction false} SplitFromJoin(cur: string, s: string)
    ensures JoinLines(SplitFrom(cur, s)) == cur + s
    decreases |s|
  {
    if s == [] {
      assert cur + s == cur;
    } else if s[0] == '\n' {
      var t := Scan([], s[1..]);
      SplitFromJoin([], s[1..]);
      assert SplitFrom(cur, s) == [cur] + (t.0 + [t.1]);
      assert ([cur] + (t.0 + [t.1]))[1..] == t.0 + [t.1];
      assert s == "\n" + s[1..];
    } else {
      SplitFromJoin(cur + [s[0]], s[1..]);
      assert cur + [s[0]] + s[1..] == cur + s;
    }
  }

  lemma {:induction false} SplitFromNoNewline(cur: string, s: string)
    requires NoNewline(cur)
    ensures forall k :: 0 <= k < |SplitFrom(cur, s)| ==> NoNewline(SplitFrom(cur, s)[k])
    decreases |s|
  {
    if s == [] {
    } else if s[0] == '\n' {
      SplitFromNoNewline([], s[1..]);
      var t := Scan([], s[1..]);
      assert SplitFrom(cur, s) == [cur] + SplitFrom([], s[1..]);
    } else {
      assert NoNewline(cur + [s[0]]) by {
        forall i | 0 <= i < |cur| + 1 ensures (cur + [s[0]])[i] != '\n' {
          if i < |cur| { assert (cur + [s[0]])[i] == cur[i]; }
        }
      }
      SplitFromNoNewline(cur + [s[0]], s[1..]);
      assert SplitFrom(cur, s) == SplitFrom(cur + [s[0]], s[1..]);
    }
  }

  /** The pieces of `Split` contain no '\n', and joining them with '\n' gives `s` back. */
  lemma SplitJoin(s: string)
    ensures forall k :: 0 <= k < |Split(s)| ==> NoNewline(Split(s)[k])
    ensures JoinLines(Split(s)) == s
  {
    SplitFromNoNewline([], s);
    SplitFromJoin([], s);
    assert [] + s == s;
  }

  /** The other direction of the round trip: splitting '\n'-free pieces joined by '\n'
      gives the pieces back. */
  lemma {:induction false} JoinSplit(ps: seq<string>)
    requires |ps| >= 1
    requires forall k :: 0 <= k < |ps| ==> NoNewline(ps[k])
    ensures Split(JoinLines(ps)) == ps
    decreases |ps|
  {
    if |ps| == 1 {
      ScanNoNewline([], ps[0]);
      assert [] + ps[0] == ps[0];
    } else {
      var rest := JoinLines(ps[1..]);
      JoinSplit(ps[1..]);
      ScanNoNewline([], ps[0]);
      assert [] + ps[0] == ps[0];
      ScanAppend([], ps[0], "\n" + rest);
      assert ps[0] + "\n" + rest == ps[0] + ("\n" + rest);
      assert ("\n" + rest)[0] == '\n';
      assert ("\n" + rest)[1..] == rest;
      assert ps == [ps[0]] + ps[1..];
    }
  }

  /** The `RemoveEmptyEntries` option: drops the empty pieces, keeping the order. */
  function RemoveEmpty(ps: seq<string>): (r: seq<string>)
    ensures |r| <= |ps|
    ensures forall k :: 0 <= k < |r| ==> r[k] != []
    decreases |ps|
  {
    if ps == [] then []
    else (if ps[0] == [] then [] else [ps[0]]) + RemoveEmpty(ps[1..])
  }

  /** `RemoveEmptyEntries` keeps exactly the non-empty pieces. */
  lemma {:induction false} RemoveEmptyMembers(ps: seq<string>)
    ensures forall s :: s in RemoveEmpty(ps) <==> s in ps && s != []
    decreases |ps|
  {
    if ps != [] {
      RemoveEmptyMembers(ps[1..]);
      assert ps == [ps[0]] + ps[1..];
    }
  }

  /** `RemoveEmptyEntries` keeps the order: the pieces of two parts are those of
      the first part followed by those of the second. */
  lemma {:induction false} RemoveEmptyAppend(a: seq<string>, b: seq<string>)
    ensures RemoveEmpty(a + b) == RemoveEmpty(a) + RemoveEmpty(b)
    decreases |a|
  {
    if a == [] {
      assert a + b == b;
    } else {
      assert (a + b)[0] == a[0] && (a + b)[1..] == a[1..] + b;
      RemoveEmptyAppend(a[1..], b);
    }
  }

  /** `s.Split('\n', StringSplitOptions.RemoveEmptyEntries)`. */
  function SplitRemoveEmpty(s: string): (r: seq<string>)
  {
    RemoveEmpty(Split(s))
  }

  /** `string.Join("", parts)`. */
  function Concat(parts: seq<string>): string
    decreases |parts|
  {
    if parts == [] then [] else parts[0] + Concat(parts[1..])
  }

  lemma {:induction false} ConcatAppend(a: seq<string>, b: seq<string>)
    ensures Concat(a + b) == Concat(a) + Concat(b)
    decreases |a|
  {
    if a == [] {
      assert a + b == b;
    } else {
      ConcatAppend(a[1..], b);
      assert (a + b)[1..] == a[1..] + b;
    }
  }

  /** `s.TrimEnd(c)`: the longest prefix of `s` that does not end in `c`; everything
      cut off is `c`. */
  function TrimEnd(s: string, c: char): (r: string)
    ensures |r| <= |s| && r == s[..|r|]
    ensures forall i :: |r| <= i < |s| ==> s[i] == c
    ensures r == [] || r[|r| - 1] != c
    decreases |s|
  {
    if s != [] && s[|s| - 1] == c then TrimEnd(s[..|s| - 1], c) else s
  }

  /** Ordinal `s.StartsWith(p)`. */
  predicate StartsWith(s: string, p: string) {
    |p| <= |s| && s[..|p|] == p
  }

  /** The upper-case mapping used by ordinal case-insensitive comparison, on ASCII letters. */
  function ToUpperAscii(c: char): (u: char)
    ensures ('a' <= c <= 'z') ==> u as int == c as int - 32
    ensures !('a' <= c <= 'z') ==> u == c
  {
    if 'a' <= c <= 'z' then (c as int - 32) as char else c
  }

  /** `a.Equals(b, StringComparison.OrdinalIgnoreCase)` on ASCII text. */
  predicate EqualsIgnoreCase(a: string, b: string) {
    |a| == |b| && forall i :: 0 <= i < |a| ==> ToUpperAscii(a[i]) == ToUpperAscii(b[i])
  }
}
