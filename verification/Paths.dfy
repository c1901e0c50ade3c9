/** Path strings: what their components are, and how vfs.c finds the parent and the last one. */
module Paths {

  /** Length of the leading run of characters that are slashes (or that are not). */
  function Run(p: string, slash: bool): (n: nat)
    ensures n <= |p| && (forall i | 0 <= i < n :: (p[i] == '/') == slash)
    ensures n < |p| ==> (p[n] == '/') != slash
  {
    if p == "" || (p[0] == '/') != slash then 0 else 1 + Run(p[1..], slash)
  }

  /** The nonempty names between slashes. */
  function Components(p: string): seq<string>
    decreases |p|
  {
    if p == "" then []
    else if p[0] == '/' then Components(p[1..])
    else [p[..Run(p, false)]] + Components(p[Run(p, false)..])
  }

  predicate IsName(s: string) { s != "" && forall i | 0 <= i < |s| :: s[i] != '/' }

  predicate AllSlashes(s: string) { forall i | 0 <= i < |s| :: s[i] == '/' }

  /** q can be followed by r without joining a name of q to a name of r. */
  predicate Splits(q: string, r: string) {
    q == "" || r == "" || q[|q| - 1] == '/' || r[0] == '/'
  }

  lemma {:induction false} ComponentsOfSlashes(s: string)
    requires AllSlashes(s)
    ensures Components(s) == []
  {
    if s != "" { ComponentsOfSlashes(s[1..]); }
  }

  lemma {:induction false} RunIs(p: string, slash: bool, n: nat)
    requires n <= |p| && (forall i | 0 <= i < n :: (p[i] == '/') == slash)
    requires n < |p| ==> (p[n] == '/') != slash
    ensures Run(p, slash) == n
  {
    if n > 0 { RunIs(p[1..], slash, n - 1); }
  }

  lemma {:induction false} ComponentsOfName(s: string)
    requires IsName(s)
    ensures Components(s) == [s]
  {
    RunIs(s, false, |s|);
    assert s[|s|..] == "" && s[..|s|] == s;
  }

  lemma {:induction false} Assoc(x: string, a: seq<string>, b: seq<string>)
    ensures [x] + (a + b) == ([x] + a) + b
  {
  }

  lemma {:induction false} CutConcat(q: string, r: string, n: nat)
    requires n <= |q|
    ensures (q + r)[..n] == q[..n] && (q + r)[n..] == q[n..] + r
  {
  }

  /** Components of a path cut at a slash are those of its two parts. */
  lemma {:induction false} ComponentsJoin(q: string, r: string)
    requires Splits(q, r)
    ensures Components(q + r) == Components(q) + Components(r)
    decreases |q|
  {
    if q == "" {
      assert q + r == r;
    } else if r == "" {
      assert q + r == q;
    } else if q[0] == '/' {
      CutConcat(q, r, 1);
      ComponentsJoin(q[1..], r);
    } else {
      var n := Run(q, false);
      RunIs(q + r, false, n);
      CutConcat(q, r, n);
      ComponentsJoin(q[n..], r);
      Assoc(q[..n], Components(q[n..]), Components(r));
    }
  }

  lemma {:induction false} ComponentsAreNames(p: string)
    ensures forall i | 0 <= i < |Components(p)| :: IsName(Components(p)[i])
    decreases |p|
  {
    if p != "" {
      ComponentsAreNames(if p[0] == '/' then p[1..] else p[Run(p, false)..]);
    }
  }

  // ---- parent_path and basename_of_path ----

  /** Where a backward scan from `end` stops: at index 0, or before the first character of the other kind. */
  function ScanBack(p: string, end: int, slash: bool): (r: int)
    requires -1 <= end < |p|
    ensures -1 <= r <= end && (end >= 0 ==> r >= 0)
    ensures forall i | r < i <= end :: (p[i] == '/') == slash
    ensures r > 0 ==> (p[r] == '/') != slash
    decreases end + 1
  {
    if end > 0 && (p[end] == '/') == slash then ScanBack(p, end - 1, slash) else end
  }

  function LastOf(p: string): int { ScanBack(p, |p| - 1, true) }

  function CutOf(p: string): int { ScanBack(p, LastOf(p), false) }

  /** The path vfs.c takes for the parent. */
  function ParentOf(p: string): string { p[..CutOf(p) + 1] }

  /** The name vfs.c takes for the last component. */
  function BaseOf(p: string): string { p[CutOf(p) + 1..LastOf(p) + 1] }

  /** parent_path. */
  method ParentPath(p: string) returns (r: string)
    ensures r == ParentOf(p)
  {
    var end := |p| - 1;
    while end > 0 && p[end] == '/'
      invariant -1 <= end < |p| && ScanBack(p, end, true) == LastOf(p)
    {
      end := end - 1;
    }
    while end > 0 && p[end] != '/'
      invariant -1 <= end < |p| && ScanBack(p, end, false) == CutOf(p)
    {
      end := end - 1;
    }
    return p[..end + 1];
  }

  /** basename_of_path. */
  method Basename(p: string) returns (r: string)
    ensures r == BaseOf(p)
  {
    var end := |p| - 1;
    while end > 0 && p[end] == '/'
      invariant -1 <= end < |p| && ScanBack(p, end, true) == LastOf(p)
    {
      end := end - 1;
    }
    var strEnd := end;
    while end > 0 && p[end] != '/'
      invariant -1 <= end <= strEnd < |p| && strEnd == LastOf(p) && ScanBack(p, end, false) == CutOf(p)
    {
      end := end - 1;
    }
    return p[end + 1..strEnd + 1];
  }

  /** The last name of a path, when it starts after a slash or with the path, ends at LastOf. */
  lemma {:induction false} LastOfParts(p: string, q: string, name: string, tail: string)
    requires Parts(p, q, name, tail)
    ensures LastOf(p) == |q| + |name| - 1
  {
    ScanBackTo(p, |p| - 1, |q| + |name| - 1, true);
  }

  /** Cutting a path whose last name starts after a slash. */
  lemma {:induction false} CutAfterSlash(p: string, q: string, name: string, tail: string)
    requires Parts(p, q, name, tail) && q != ""
    ensures ParentOf(p) == q && BaseOf(p) == name
  {
    LastOfParts(p, q, name, tail);
    assert p[|q| - 1] == '/';
    assert forall i | |q| <= i < |q| + |name| :: p[i] == name[i - |q|];
    ScanBackTo(p, |q| + |name| - 1, |q| - 1, false);
  }

  /** A bare name is cut after its first character. */
  lemma {:induction false} CutBare(p: string, name: string, tail: string)
    requires Parts(p, "", name, tail)
    ensures ParentOf(p) == name[..1] && BaseOf(p) == name[1..]
  {
    LastOfParts(p, "", name, tail);
    assert p == name + tail;
    ScanBackTo(p, |name| - 1, 0, false);
  }

  /** A path of slashes only has the first of them for a parent, and an empty last name. */
  lemma {:induction false} CutSlashes(p: string)
    requires AllSlashes(p)
    ensures ParentOf(p) == (if p == "" then "" else "/") && BaseOf(p) == ""
  {
    if p != "" {
      SlashEnds(p);
      assert p[..1] == [p[0]];
    }
  }

  lemma {:induction false} SlashEnds(p: string)
    requires AllSlashes(p) && p != ""
    ensures LastOf(p) == 0 && CutOf(p) == 0 && p[0] == '/'
  {
    ScanBackTo(p, |p| - 1, 0, true);
  }

  lemma {:induction false} ScanBackTo(p: string, end: int, r: int, slash: bool)
    requires 0 <= r <= end < |p| && (forall i | r < i <= end :: (p[i] == '/') == slash)
    requires r > 0 ==> (p[r] == '/') != slash
    ensures ScanBack(p, end, slash) == r
    decreases end
  {
    if end > r { ScanBackTo(p, end - 1, r, slash); }
  }

  /** The parts of a path: up to its last name, that name, and the trailing slashes. */
  ghost predicate Parts(p: string, q: string, name: string, tail: string) {
    p == q + name + tail && IsName(name) && AllSlashes(tail) && (q != "" ==> q[|q| - 1] == '/')
  }

  lemma {:induction false} PartsComponents(p: string, q: string, name: string, tail: string)
    requires Parts(p, q, name, tail)
    ensures Components(p) == Components(q) + [name]
  {
    assert p == q + (name + tail);
    ComponentsJoin(q, name + tail);
    ComponentsJoin(name, tail);
    ComponentsOfSlashes(tail);
    ComponentsOfName(name);
  }

  lemma {:induction false} ThreeCut(p: string, i: nat, j: nat)
    requires i <= j <= |p|
    ensures p == p[..i] + p[i..j] + p[j..]
  {
  }

  lemma {:induction false} LastNotSlash(p: string)
    requires !AllSlashes(p)
    ensures LastOf(p) >= 0 && p[LastOf(p)] != '/' && AllSlashes(p[LastOf(p) + 1..])
  {
    var last, tail := LastOf(p), p[LastOf(p) + 1..];
    forall i | 0 <= i < |tail| ensures tail[i] == '/' { assert tail[i] == p[last + 1 + i]; }
    var k :| 0 <= k < |p| && p[k] != '/';
  }

  lemma {:induction false} NoSlashAfterCut(p: string)
    requires LastOf(p) >= 0 && p[LastOf(p)] != '/'
    ensures 0 <= CutOf(p) <= LastOf(p) && (p[CutOf(p)] == '/' ==> CutOf(p) < LastOf(p))
              && (p[CutOf(p)] != '/' ==> CutOf(p) == 0)
    ensures forall j | CutOf(p) <= j <= LastOf(p) && (j > CutOf(p) || p[j] != '/') :: p[j] != '/'
  {
  }

  /** A path that is not all slashes has these parts. */
  lemma {:induction false} LastName(p: string) returns (q: string, name: string, tail: string)
    requires !AllSlashes(p)
    ensures Parts(p, q, name, tail)
  {
    LastNotSlash(p);
    var last, cut := LastOf(p), CutOf(p);
    NoSlashAfterCut(p);
    var start := if p[cut] == '/' then cut + 1 else cut;
    q, name, tail := p[..start], p[start..last + 1], p[last + 1..];
    ThreeCut(p, start, last + 1);
    SliceName(p, start, last + 1);
  }

  lemma {:induction false} SliceName(p: string, i: nat, j: nat)
    requires i < j <= |p| && forall k | i <= k < j :: p[k] != '/'
    ensures IsName(p[i..j])
  {
  }

  /**
   Parent and base name together are the path exactly when it has a component and either starts
   with a slash or has at least two components. A bare name is cut after its first character.
   */
  lemma {:induction false} ParentBaseSplit(p: string)
    ensures Components(p) == Components(ParentOf(p)) + [BaseOf(p)] <==>
              Components(p) != [] && (p[0] == '/' || |Components(p)| >= 2)
  {
    if AllSlashes(p) {
      ComponentsOfSlashes(p);
    } else {
      var q, name, tail := LastName(p);
      if q == "" { BareName(p, name, tail); } else { NameAfterSlash(p, q, name, tail); }
    }
  }

  lemma {:induction false} BareName(p: string, name: string, tail: string)
    requires Parts(p, "", name, tail)
    ensures p[0] != '/' && |Components(p)| == 1 && |Components(ParentOf(p)) + [BaseOf(p)]| == 2
  {
    assert p == name + tail;
    CutBare(p, name, tail);
    PartsComponents(p, "", name, tail);
    BareNameSplit(p, name);
  }

  lemma {:induction false} NameAfterSlash(p: string, q: string, name: string, tail: string)
    requires Parts(p, q, name, tail) && q != ""
    ensures Components(p) == Components(ParentOf(p)) + [BaseOf(p)]
    ensures p[0] == '/' || |Components(p)| >= 2
  {
    CutAfterSlash(p, q, name, tail);
    PartsComponents(p, q, name, tail);
    FirstCharacter(q);
    assert p[0] == q[0];
  }

  lemma {:induction false} FirstCharacter(q: string)
    requires q != ""
    ensures q[0] != '/' ==> Components(q) != []
  {
  }

  lemma {:induction false} BareNameSplit(p: string, name: string)
    requires IsName(name) && ParentOf(p) == name[..1] && BaseOf(p) == name[1..]
    ensures |Components(ParentOf(p)) + [BaseOf(p)]| == 2
  {
    ComponentsOfName(name[..1]);
  }
}
