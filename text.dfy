/** Character-level helpers shared by the client pages and the comment
    schema: JavaScript's `trim`, `includes`, `||` on strings and the
    `split(',')` / `join` pair. */
module Text {
  import opened Wrappers

  /** The whitespace set `trim` removes. JavaScript's set also holds the Unicode
      space separators; this model keeps the ASCII ones. */
  predicate IsSpace(c: char) {
    c == ' ' || c == '\t' || c == '\n' || c == '\r' || c == '\U{B}' || c == '\U{C}'
  }

  predicate AllSpace(s: string) {
    forall i :: 0 <= i < |s| ==> IsSpace(s[i])
  }

  /** A string that `trim` leaves as it is. */
  predicate IsTrimmed(s: string) {
    s == [] || (!IsSpace(s[0]) && !IsSpace(s[|s| - 1]))
  }

  /** The number of leading whitespace characters. */
  function Lead(s: string): (n: nat)
    ensures n <= |s|
  {
    if s != [] && IsSpace(s[0]) then 1 + Lead(s[1..]) else 0
  }

  /** The number of trailing whitespace characters. */
  function Trail(s: string): (n: nat)
    ensures n <= |s|
  {
    if s != [] && IsSpace(s[|s| - 1]) then 1 + Trail(s[..|s| - 1]) else 0
  }

  /** `Lead` counts whitespace and stops at the first other character. */
  lemma {:induction false} LeadIsMaximal(s: string)
    ensures AllSpace(s[..Lead(s)])
    ensures Lead(s) < |s| ==> !IsSpace(s[Lead(s)])
  {
    if s != [] && IsSpace(s[0]) {
      var tail := s[1..];
      LeadIsMaximal(tail);
      assert forall i :: 1 <= i < Lead(s) ==> s[i] == tail[i - 1];
    }
  }

  /** `Trail` counts whitespace and stops at the last other character. */
  lemma {:induction false} TrailIsMaximal(s: string)
    ensures AllSpace(s[|s| - Trail(s)..])
    ensures Trail(s) < |s| ==> !IsSpace(s[|s| - 1 - Trail(s)])
  {
    if s != [] && IsSpace(s[|s| - 1]) {
      var init := s[..|s| - 1];
      TrailIsMaximal(init);
      assert forall i :: |s| - Trail(s) <= i < |s| - 1 ==> s[i] == init[i];
    }
  }

  /** `trim`: the whitespace at both ends dropped. */
  function Trim(s: string): (r: string)
    ensures |r| <= |s|
  {
    var t := s[Lead(s)..];
    t[..|t| - Trail(t)]
  }

  /** What `trim` leaves is the infix of its input that starts after the
      leading whitespace. */
  lemma TrimIsInfix(s: string)
    ensures Lead(s) + |Trim(s)| <= |s|
    ensures forall j :: 0 <= j < |Trim(s)| ==> Trim(s)[j] == s[Lead(s) + j]
  {
  }

  /** `trim` leaves no whitespace at either end. */
  lemma TrimIsTrimmed(s: string)
    ensures IsTrimmed(Trim(s))
  {
    var t := s[Lead(s)..];
    LeadIsMaximal(s);
    TrailIsMaximal(t);
    var r := Trim(s);
    if r != [] {
      assert r[0] == s[Lead(s)];
      assert r[|r| - 1] == t[|t| - 1 - Trail(t)];
    }
  }

  /** `trim` keeps a trimmed string, and only a trimmed one. */
  lemma TrimFixesExactlyTrimmed(s: string)
    ensures Trim(s) == s <==> IsTrimmed(s)
  {
    TrimIsTrimmed(s);
    if IsTrimmed(s) && s != [] {
      assert Lead(s) == 0;
      assert s[0..] == s;
      assert Trail(s) == 0;
    }
  }

  /** A leading space makes no difference to `trim`. */
  lemma TrimAfterSpace(x: string)
    ensures Trim(" " + x) == Trim(x)
  {
    var s := " " + x;
    assert s[1..] == x;
    assert s[Lead(s)..] == x[Lead(x)..];
  }

  /** `trim` yields the empty string exactly on blank input. */
  lemma TrimEmptyIffBlank(s: string)
    ensures Trim(s) == [] <==> AllSpace(s)
  {
    var a := Lead(s);
    var t := s[a..];
    if AllSpace(s) {
      LeadOfBlank(s);
    }
    if Trim(s) == [] {
      LeadIsMaximal(s);
      TrailIsMaximal(t);
      assert t[|t| - Trail(t)..] == t;
      AllSpaceSplit(s, a);
    }
  }

  lemma {:induction false} LeadOfBlank(s: string)
    requires AllSpace(s)
    ensures Lead(s) == |s|
  {
    if s != [] {
      assert IsSpace(s[0]);
      var tail := s[1..];
      assert forall i :: 0 <= i < |tail| ==> tail[i] == s[i + 1];
      LeadOfBlank(tail);
    }
  }

  lemma AllSpaceSplit(s: string, a: nat)
    requires a <= |s| && AllSpace(s[..a]) && AllSpace(s[a..])
    ensures AllSpace(s)
  {
    forall i | 0 <= i < |s|
      ensures IsSpace(s[i])
    {
      if i < a {
        assert s[i] == s[..a][i];
      } else {
        assert s[i] == s[a..][i - a];
      }
    }
  }

  predicate StartsWith(s: string, prefix: string) {
    |prefix| <= |s| && s[..|prefix|] == prefix
  }

  /** `s.includes(sub)`. */
  predicate Contains(s: string, sub: string)
    decreases |s|
  {
    StartsWith(s, sub) || (s != [] && Contains(s[1..], sub))
  }

  lemma {:induction false} ContainsItself(s: string)
    ensures Contains(s, s)
  {
    assert s[..|s|] == s;
  }

  /** `[].join(d)`, `[x].join(d)`, `[x, ...].join(d)`. */
  function Join(xs: seq<string>, d: string): string
  {
    if |xs| == 0 then "" else if |xs| == 1 then xs[0] else xs[0] + d + Join(xs[1..], d)
  }

  /** `s.split(sep)` for a one-character separator: the maximal separator-free
      pieces, as many as there are separators plus one. */
  function Split(s: string, sep: char): (parts: seq<string>)
    ensures |parts| >= 1
  {
    if s == [] then [""]
    else
      var rest := Split(s[1..], sep);
      if s[0] == sep then [""] + rest
      else [[s[0]] + rest[0]] + rest[1..]
  }

  /** No piece of `split` holds the separator. */
  lemma {:induction false} SplitPiecesSeparatorFree(s: string, sep: char)
    ensures forall i :: 0 <= i < |Split(s, sep)| ==> sep !in Split(s, sep)[i]
  {
    if s != [] {
      var rest := Split(s[1..], sep);
      SplitPiecesSeparatorFree(s[1..], sep);
      if s[0] != sep {
        assert sep !in [s[0]] + rest[0];
      }
    }
  }

  /** Joining the pieces of `split` with the separator gives the text back. */
  lemma {:induction false} JoinSplit(s: string, sep: char)
    ensures Join(Split(s, sep), [sep]) == s
  {
    if s != [] {
      var rest := Split(s[1..], sep);
      JoinSplit(s[1..], sep);
      if s[0] == sep {
        assert Join([""] + rest, [sep]) == [sep] + Join(rest, [sep]);
      } else {
        var parts := [[s[0]] + rest[0]] + rest[1..];
        assert parts[1..] == rest[1..];
        assert s == [s[0]] + s[1..];
      }
    }
  }

  /** `x || d` for a string that may be missing: a missing or empty value
      falls back to `d`. */
  function OrDefault(x: Option<string>, d: string): (r: string)
    ensures x.Some? && x.value != "" ==> r == x.value
    ensures x.None? || x.value == "" ==> r == d
  {
    if x.Some? && x.value != "" then x.value else d
  }
}
