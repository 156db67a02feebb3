/** The two `os.path` functions (POSIX flavour) the PDF extractor uses to
    name the PNG files it writes. */
module Paths {
  import opened Strings

  function LastSlash(p: string): (i: int)
    ensures -1 <= i < |p|
    ensures i >= 0 ==> p[i] == '/'
    ensures forall k :: i < k < |p| ==> p[k] != '/'
    decreases |p|
  {
    if p == [] then -1
    else if p[|p| - 1] == '/' then |p| - 1
    else LastSlash(p[..|p| - 1])
  }

  predicate AllSlashes(p: string) {
    forall k :: 0 <= k < |p| ==> p[k] == '/'
  }

  function TrimSlashes(p: string): (r: string)
    ensures |r| <= |p| && r == p[..|r|]
    decreases |p|
  {
    if p != [] && p[|p| - 1] == '/' then TrimSlashes(p[..|p| - 1]) else p
  }

  /** `os.path.dirname(p)`: everything before the last `/`, with trailing
      slashes removed unless it consists of slashes only. */
  function Dirname(p: string): (r: string)
    ensures |r| <= |p| && r == p[..|r|]
  {
    var head := p[..LastSlash(p) + 1];
    if head != [] && !AllSlashes(head) then TrimSlashes(head) else head
  }

  /** `os.path.join(a, b)` */
  function PathJoin(a: string, b: string): (r: string)
    ensures EndsWith(r, b)
  {
    if StartsWith(b, "/") then b
    else if a == [] || EndsWith(a, "/") then a + b
    else a + "/" + b
  }
}
