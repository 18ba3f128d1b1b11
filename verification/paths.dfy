/**
 POSIX path operations with the semantics of Python's `posixpath`:
 `join`, `normpath`, `dirname`, `basename` and `splitext`. Paths are
 relative to the repository root unless they start with `/`.
 */
module Paths {
  import opened Wrappers
  import opened Text

  /** Index just past the last `c` in `p`, or 0 when `p` has none (`p.rfind(c) + 1`). */
  function AfterLast(p: string, c: char): (i: nat)
    ensures i <= |p|
    ensures forall k :: i <= k < |p| ==> p[k] != c
    ensures i > 0 ==> p[i - 1] == c
  {
    if p == [] then 0
    else if p[|p| - 1] == c then |p|
    else AfterLast(p[..|p| - 1], c)
  }

  /** `os.path.basename`: everything after the last `/`. */
  function BaseName(p: string): (b: string)
    ensures '/' !in b
    ensures EndsWith(p, b)
    ensures '/' !in p ==> b == p
  {
    var i := AfterLast(p, '/');
    assert p[|p| - |p[i..]|..] == p[i..];
    p[i..]
  }

  predicate AllSlashes(s: string) {
    forall k :: 0 <= k < |s| ==> s[k] == '/'
  }

  function StripTrailingSlashes(s: string): (r: string)
    ensures r <= s
    ensures r == [] || r[|r| - 1] != '/'
  {
    if s != [] && s[|s| - 1] == '/' then StripTrailingSlashes(s[..|s| - 1]) else s
  }

  /** `os.path.dirname`: the head before the last `/`, trailing slashes removed unless it is all slashes. */
  function DirName(p: string): (d: string)
    ensures '/' !in p ==> d == ""
    ensures d <= p
  {
    var head := p[..AfterLast(p, '/')];
    if head != [] && !AllSlashes(head) then StripTrailingSlashes(head) else head
  }

  /** `os.path.join(a, b)` for two components. */
  function Join2(a: string, b: string): (r: string)
    ensures StartsWith(b, "/") ==> r == b
    ensures !StartsWith(b, "/") ==> StartsWith(r, a) && EndsWith(r, b)
  {
    if StartsWith(b, "/") then b
    else if a == [] || a[|a| - 1] == '/' then a + b
    else a + "/" + b
  }

  /** `os.path.join(*parts)` for a non-empty list of components. */
  function JoinAll(parts: seq<string>): string
    requires |parts| >= 1
    decreases |parts|
  {
    if |parts| == 1 then parts[0]
    else Join2(JoinAll(parts[..|parts| - 1]), parts[|parts| - 1])
  }

  /** A component that `normpath` leaves as it is. */
  predicate Plain(c: string) {
    c != "" && c != "." && c != ".." && '/' !in c
  }

  /**
   The component loop of `normpath`: skip empty and `.` components, let `..`
   cancel the previous component unless that is itself `..`, keep a leading
   `..` of a relative path and drop one at the root of an absolute path.
   */
  function NormComponents(comps: seq<string>, absolute: bool, acc: seq<string>): seq<string>
    decreases |comps|
  {
    if comps == [] then acc
    else
      var c := comps[0];
      var acc' :=
        if c == "" || c == "." then acc
        else if c != ".." || (!absolute && acc == []) || (acc != [] && acc[|acc| - 1] == "..") then acc + [c]
        else if acc != [] then acc[..|acc| - 1]
        else acc;
      NormComponents(comps[1..], absolute, acc')
  }

  /** Number of leading slashes `normpath` keeps: 0, 1, or exactly 2 (POSIX allows `//` a special meaning). */
  function LeadingSlashes(p: string): nat {
    if !StartsWith(p, "/") then 0
    else if StartsWith(p, "//") && !StartsWith(p, "///") then 2
    else 1
  }

  /** `os.path.normpath`. */
  function NormPath(p: string): (r: string)
    ensures r != ""
  {
    if p == "" then "."
    else
      var slashes := LeadingSlashes(p);
      var comps := NormComponents(Split(p, "/"), slashes > 0, []);
      var r := (if slashes == 0 then "" else if slashes == 1 then "/" else "//") + Join(comps, "/");
      if r == "" then "." else r
  }

  lemma {:induction false} NormComponentsPlain(comps: seq<string>, acc: seq<string>)
    requires forall i :: 0 <= i < |comps| ==> Plain(comps[i])
    ensures NormComponents(comps, false, acc) == acc + comps
    decreases |comps|
  {
    if comps != [] {
      NormComponentsPlain(comps[1..], acc + [comps[0]]);
      assert acc + [comps[0]] + comps[1..] == acc + comps;
    }
  }

  /** `normpath` leaves a relative path made only of plain components unchanged. */
  lemma {:induction false} NormPathOfPlainPath(p: string)
    requires p != ""
    requires forall i :: 0 <= i < |Split(p, "/")| ==> Plain(Split(p, "/")[i])
    ensures NormPath(p) == p
  {
    var comps := Split(p, "/");
    assert Plain(comps[0]);
    JoinSplit(p, "/");
    NormComponentsPlain(comps, []);
    assert [] + comps == comps;
  }

  /**
   `os.path.splitext`: the extension starts at the last `.` of the last path
   component, provided something other than dots precedes it in that
   component; otherwise the extension is empty.
   */
  function SplitExt(p: string): (r: (string, string))
    ensures r.0 + r.1 == p
    ensures r.1 == "" || (r.1[0] == '.' && '/' !in r.1 && '.' !in r.1[1..])
  {
    var start := AfterLast(p, '/');
    var name := p[start..];
    var dot := AfterLast(name, '.');
    if dot > 0 && HasNonDot(name[..dot - 1]) then
      var k := start + dot - 1;
      assert p[..k] + p[k..] == p;
      assert p[k..] == name[dot - 1..];
      (p[..k], p[k..])
    else (p, "")
  }

  predicate HasNonDot(s: string) {
    exists k :: 0 <= k < |s| && s[k] != '.'
  }

  /** `os.path.splitext(p)[1]`. */
  function Extension(p: string): string {
    SplitExt(p).1
  }
}
