/** Redirect-URI wildcards (auth_service._wildcard_match): the pattern is split at '*', the pieces are
    escaped and joined with ".*", and the whole target is matched against the resulting regex. */
module Glob {
  import opened Common

  // ---------------------------------------------------------------- the program

  /** str.split("*"). */
  function Split(pattern: string): (parts: seq<string>)
    ensures |parts| >= 1
  {
    if pattern == "" then [""]
    else
      var rest := Split(pattern[1..]);
      if pattern[0] == '*' then [""] + rest else [[pattern[0]] + rest[0]] + rest[1..]
  }

  /** The only regexes the program builds: escaped literals and ".*". */
  datatype Atom = Lit(c: char) | DotStar

  function Escape(part: string): seq<Atom> {
    if part == "" then [] else [Lit(part[0])] + Escape(part[1..])
  }

  /** ".*".join(re.escape(p) for p in parts). */
  function Join(parts: seq<string>): seq<Atom>
    requires |parts| >= 1
  {
    if |parts| == 1 then Escape(parts[0]) else Escape(parts[0]) + [DotStar] + Join(parts[1..])
  }

  /** re.fullmatch without flags: the dot does not match a newline. */
  predicate FullMatch(re: seq<Atom>, t: string)
    decreases |re| + |t|
  {
    if re == [] then t == ""
    else match re[0]
      case Lit(c) => t != "" && t[0] == c && FullMatch(re[1..], t[1..])
      case DotStar => FullMatch(re[1..], t) || (t != "" && t[0] != '\n' && FullMatch(re, t[1..]))
  }

  predicate Ascii(s: string) {
    forall i :: 0 <= i < |s| ==> s[i] < 128 as char
  }

  datatype MatchError = NonAsciiTypeError

  /** secrets.compare_digest raises TypeError on a str with a non-ASCII character. */
  function WildcardMatch(pattern: string, target: string): Result<bool, MatchError> {
    if '*' !in pattern then
      if Ascii(pattern) && Ascii(target) then Ok(pattern == target) else Err(NonAsciiTypeError)
    else
      Ok(FullMatch(Join(Split(pattern)), target))
  }

  // ---------------------------------------------------------------- references

  /** Character-by-character glob semantics: '*' stands for any run of characters. */
  predicate GlobMatch(p: string, t: string)
    decreases |p| + |t|
  {
    if p == "" then t == ""
    else if p[0] == '*' then GlobMatch(p[1..], t) || (t != "" && GlobMatch(p, t[1..]))
    else t != "" && t[0] == p[0] && GlobMatch(p[1..], t[1..])
  }

  /** p0 x1 p1 x2 ... xn pn. */
  function Weave(parts: seq<string>, gaps: seq<string>): string
    requires |parts| == |gaps| + 1
  {
    if |parts| == 1 then parts[0] else parts[0] + gaps[0] + Weave(parts[1..], gaps[1..])
  }

  /** Leftmost occurrence of s in t at or after position i. */
  function Find(s: string, t: string, i: nat): Option<nat>
    requires i <= |t|
    decreases |t| - i
  {
    if s <= t[i..] then Some(i) else if i == |t| then None else Find(s, t, i + 1)
  }

  /** Segment search: the first piece is a prefix, each middle piece is taken at its leftmost
      occurrence in what is left, and the last piece is a suffix of what is left. */
  predicate GreedyMatch(parts: seq<string>, t: string)
    requires |parts| >= 1
  {
    if |parts| == 1 then t == parts[0]
    else parts[0] <= t && GreedyRest(parts[1..], t[|parts[0]|..])
  }

  predicate GreedyRest(rest: seq<string>, t: string)
    requires |rest| >= 1
    decreases |rest|
  {
    if |rest| == 1 then |rest[0]| <= |t| && t[|t| - |rest[0]|..] == rest[0]
    else
      var at := Find(rest[0], t, 0);
      at.Some? && at.value + |rest[0]| <= |t| && GreedyRest(rest[1..], t[at.value + |rest[0]|..])
  }

  function Newlines(s: string): nat {
    if s == "" then 0 else (if s[0] == '\n' then 1 else 0) + Newlines(s[1..])
  }

  // ---------------------------------------------------------------- regex = glob

  function Atoms(p: string): seq<Atom> {
    if p == "" then [] else [if p[0] == '*' then DotStar else Lit(p[0])] + Atoms(p[1..])
  }

  lemma {:induction false} JoinOfSplit(p: string)
    ensures Join(Split(p)) == Atoms(p)
  {
    if p != "" {
      JoinOfSplit(p[1..]);
      var rest := Split(p[1..]);
      var parts := Split(p);
      if p[0] == '*' {
        assert parts[1..] == rest;
      } else {
        assert parts[0][1..] == rest[0];
        assert parts[1..] == rest[1..];
      }
    }
  }

  lemma {:induction false} GlobNeedsPatternNewlines(p: string, t: string)
    requires GlobMatch(p, t)
    ensures Newlines(t) >= Newlines(p)
    decreases |p| + |t|
  {
    if p != "" {
      if p[0] == '*' {
        if GlobMatch(p[1..], t) {
          GlobNeedsPatternNewlines(p[1..], t);
        } else {
          GlobNeedsPatternNewlines(p, t[1..]);
        }
      } else {
        GlobNeedsPatternNewlines(p[1..], t[1..]);
      }
    }
  }

  /** The regex and the glob differ in one thing only: a newline under a wildcard. */
  lemma {:induction false} RegexIsGlobWithoutNewlines(p: string, t: string)
    ensures FullMatch(Atoms(p), t) <==> GlobMatch(p, t) && Newlines(t) == Newlines(p)
    decreases |p| + |t|
  {
    if p != "" {
      assert Atoms(p)[1..] == Atoms(p[1..]);
      if p[0] == '*' {
        RegexIsGlobWithoutNewlines(p[1..], t);
        if t != "" {
          RegexIsGlobWithoutNewlines(p, t[1..]);
          if GlobMatch(p, t[1..]) { GlobNeedsPatternNewlines(p, t[1..]); }
        }
      } else if t != "" {
        RegexIsGlobWithoutNewlines(p[1..], t[1..]);
      }
    }
  }

  lemma {:induction false} LiteralGlob(p: string, t: string)
    requires '*' !in p
    ensures GlobMatch(p, t) <==> p == t
  {
    if p != "" && t != "" {
      LiteralGlob(p[1..], t[1..]);
      assert p == [p[0]] + p[1..] && t == [t[0]] + t[1..];
    }
  }

  lemma AsciiExactly(p: string, t: string)
    ensures Ascii(p) && Ascii(t) <==> forall i :: 0 <= i < |p + t| ==> (p + t)[i] as int < 128
  {
    forall i | 0 <= i < |p| ensures (p + t)[i] == p[i] {}
    forall i | 0 <= i < |t| ensures (p + t)[|p| + i] == t[i] {}
  }

  /** Exact behaviour on every input: a wildcard pattern accepts precisely the glob matches that put
      no newline under a wildcard, which a caller can read off by counting newlines; a pattern
      without wildcards accepts only itself; the call fails exactly for a literal comparison with a
      non-ASCII character. */
  lemma WildcardMatchExact(p: string, t: string)
    ensures WildcardMatch(p, t) ==
      if '*' !in p && exists i :: 0 <= i < |p + t| && (p + t)[i] as int >= 128 then Err(NonAsciiTypeError)
      else Ok(GlobMatch(p, t) && Newlines(t) == Newlines(p))
  {
    AsciiExactly(p, t);
    if '*' in p {
      JoinOfSplit(p);
      RegexIsGlobWithoutNewlines(p, t);
    } else {
      LiteralGlob(p, t);
    }
  }

  /** Three readings of a pattern agree on all patterns and targets, and for ASCII newline-free text
      they are what the program computes. */
  lemma WildcardReadingsAgree(p: string, t: string)
    ensures GlobMatch(p, t) <==> GreedyMatch(Split(p), t)
    ensures GlobMatch(p, t) <==> exists gaps: seq<string> :: |gaps| + 1 == |Split(p)| && Weave(Split(p), gaps) == t
    ensures Ascii(p) && Ascii(t) && '\n' !in p && '\n' !in t ==> WildcardMatch(p, t) == Ok(GlobMatch(p, t))
  {
    WildcardMatchExact(p, t);
    if '\n' !in p { NoNewlines(p); }
    if '\n' !in t { NoNewlines(t); }
    if GlobMatch(p, t) {
      var gaps := GlobDecomposes(p, t);
      WeaveGreedy(Split(p), gaps);
    }
    if GreedyMatch(Split(p), t) {
      var gaps := GreedyWeaves(Split(p), t);
      WeaveGlobs(p, gaps);
    }
    forall gaps: seq<string> | |gaps| + 1 == |Split(p)| && Weave(Split(p), gaps) == t ensures GlobMatch(p, t) {
      WeaveGlobs(p, gaps);
    }
  }

  /** The documentation lets '*' stand for any run of characters; the dot of the regex does not. */
  lemma NewlineUnderWildcardRefused()
    ensures GlobMatch("*", "\n") && WildcardMatch("*", "\n") == Ok(false)
  {
    WildcardMatchExact("*", "\n");
    assert "\n"[1..] == "" && "*"[1..] == "";
    assert GlobMatch("*", "");
  }

  lemma {:induction false} NoNewlines(s: string)
    requires '\n' !in s
    ensures Newlines(s) == 0
  {
    if s != "" { NoNewlines(s[1..]); }
  }

  // ---------------------------------------------------------------- glob = decomposition

  lemma {:induction false} GlobDecomposes(p: string, t: string) returns (gaps: seq<string>)
    requires GlobMatch(p, t)
    ensures |gaps| + 1 == |Split(p)| && Weave(Split(p), gaps) == t
    decreases |p| + |t|
  {
    var parts := Split(p);
    if p == "" {
      gaps := [];
    } else if p[0] == '*' {
      if GlobMatch(p[1..], t) {
        var g := GlobDecomposes(p[1..], t);
        gaps := [""] + g;
        assert parts[1..] == Split(p[1..]) && gaps[1..] == g;
      } else {
        var g := GlobDecomposes(p, t[1..]);
        gaps := [[t[0]] + g[0]] + g[1..];
        assert gaps[1..] == g[1..];
        assert t == [t[0]] + t[1..];
      }
    } else {
      var rest := Split(p[1..]);
      gaps := GlobDecomposes(p[1..], t[1..]);
      assert parts[1..] == rest[1..];
      assert t == [t[0]] + t[1..];
      assert Weave(parts, gaps) == [p[0]] + Weave(rest, gaps);
    }
  }

  lemma {:induction false} WeaveGlobs(p: string, gaps: seq<string>)
    requires |gaps| + 1 == |Split(p)|
    ensures GlobMatch(p, Weave(Split(p), gaps))
    decreases |p|, if gaps == [] then 0 else |gaps[0]|
  {
    var parts := Split(p);
    var t := Weave(parts, gaps);
    if p != "" {
      var rest := Split(p[1..]);
      if p[0] == '*' {
        assert parts[1..] == rest;
        if gaps[0] == "" {
          WeaveGlobs(p[1..], gaps[1..]);
          assert t == Weave(rest, gaps[1..]);
        } else {
          var g := [gaps[0][1..]] + gaps[1..];
          assert g[1..] == gaps[1..];
          WeaveGlobs(p, g);
          assert t[1..] == Weave(parts, g);
        }
      } else {
        assert parts[1..] == rest[1..];
        WeaveGlobs(p[1..], gaps);
        assert t == [p[0]] + Weave(rest, gaps);
        assert t[1..] == Weave(rest, gaps);
      }
    }
  }

  // ---------------------------------------------------------------- greedy = decomposition

  lemma {:induction false} FindSpec(s: string, t: string, i: nat, j: nat)
    requires i <= j <= |t| && s <= t[j..]
    ensures var at := Find(s, t, i); at.Some? && i <= at.value <= j && s <= t[at.value..]
    decreases |t| - i
  {
    if !(s <= t[i..]) { FindSpec(s, t, i + 1, j); }
  }

  lemma {:induction false} FindSound(s: string, t: string, i: nat)
    requires i <= |t| && Find(s, t, i).Some?
    ensures var at := Find(s, t, i).value; i <= at <= |t| && s <= t[at..] && at + |s| <= |t|
    decreases |t| - i
  {
    if !(s <= t[i..]) { FindSound(s, t, i + 1); }
  }

  /** x1 p1 x2 p2 ... : a weave whose first piece is empty. */
  function Tail(rest: seq<string>, gaps: seq<string>): string
    requires |rest| == |gaps| >= 1
  {
    gaps[0] + Weave(rest, gaps[1..])
  }

  /** Moving the start of the remaining text to the left keeps it matchable: the next gap grows. */
  lemma {:induction false} TailIsGreedy(rest: seq<string>, gaps: seq<string>)
    requires |rest| == |gaps| >= 1
    ensures GreedyRest(rest, Tail(rest, gaps))
    decreases |rest|
  {
    var t := Tail(rest, gaps);
    if |rest| == 1 {
      assert t[|t| - |rest[0]|..] == rest[0];
    } else {
      var later := Tail(rest[1..], gaps[1..]);
      assert t == gaps[0] + (rest[0] + later);
      FindSpec(rest[0], t, 0, |gaps[0]|);
      var at := Find(rest[0], t, 0).value;
      FindSound(rest[0], t, 0);
      var left := t[at + |rest[0]|..];
      var grown := [left[..|left| - |later|] + gaps[1]] + gaps[2..];
      assert grown[1..] == gaps[1..][1..];
      assert left[|left| - |later|..] == later;
      assert left == Tail(rest[1..], grown);
      TailIsGreedy(rest[1..], grown);
    }
  }

  lemma HeadThenTail(head: string, tail: string, t: string)
    requires t == head + tail
    ensures head <= t && t[|head|..] == tail
  {
  }

  lemma WeaveIsHeadThenTail(parts: seq<string>, gaps: seq<string>, tail: string)
    requires |parts| == |gaps| + 1 > 1 && tail == Tail(parts[1..], gaps)
    ensures Weave(parts, gaps) == parts[0] + tail
  {
    var rest := Weave(parts[1..], gaps[1..]);
    assert parts[0] + gaps[0] + rest == parts[0] + (gaps[0] + rest);
  }

  lemma WeaveGreedy(parts: seq<string>, gaps: seq<string>)
    requires |parts| == |gaps| + 1
    ensures GreedyMatch(parts, Weave(parts, gaps))
  {
    if |parts| > 1 {
      var tail := Tail(parts[1..], gaps);
      TailIsGreedy(parts[1..], gaps);
      WeaveIsHeadThenTail(parts, gaps, tail);
      HeadThenTail(parts[0], tail, Weave(parts, gaps));
    }
  }

  lemma {:induction false} GreedyTail(rest: seq<string>, t: string) returns (gaps: seq<string>)
    requires |rest| >= 1 && GreedyRest(rest, t)
    ensures |gaps| == |rest| && Tail(rest, gaps) == t
    decreases |rest|
  {
    if |rest| == 1 {
      gaps := [t[..|t| - |rest[0]|]];
      assert gaps[1..] == [];
    } else {
      FindSound(rest[0], t, 0);
      var at := Find(rest[0], t, 0).value;
      var left := t[at + |rest[0]|..];
      var g := GreedyTail(rest[1..], left);
      gaps := [t[..at]] + g;
      TailStep(rest, t, at, left, g, gaps);
    }
  }

  lemma TailStep(rest: seq<string>, t: string, at: nat, left: string, g: seq<string>, gaps: seq<string>)
    requires |rest| == |g| + 1 > 1 && at + |rest[0]| <= |t| && rest[0] <= t[at..]
    requires left == t[at + |rest[0]|..] && Tail(rest[1..], g) == left && gaps == [t[..at]] + g
    ensures Tail(rest, gaps) == t
  {
    assert gaps[1..] == g;
    WeaveIsHeadThenTail(rest, g, left);
    CutAround(t, at, rest[0], left);
  }

  lemma CutAround(t: string, at: nat, piece: string, left: string)
    requires at + |piece| <= |t| && piece <= t[at..] && left == t[at + |piece|..]
    ensures t == t[..at] + (piece + left)
  {
    assert t[at..] == piece + left;
  }

  lemma GreedyWeaves(parts: seq<string>, t: string) returns (gaps: seq<string>)
    requires |parts| >= 1 && GreedyMatch(parts, t)
    ensures |gaps| + 1 == |parts| && Weave(parts, gaps) == t
  {
    if |parts| == 1 {
      gaps := [];
    } else {
      gaps := GreedyTail(parts[1..], t[|parts[0]|..]);
      assert t == parts[0] + t[|parts[0]|..];
    }
  }
}
