/** `GetFileName` of the mkfs command line (mkfs/main.cpp): the last
    component of a path, by which a host file is named inside the image. */
module Paths {
  import opened Machine

  /** `path.find_last_of('/')`: the position of the last '/', or `None`
      for `string_view::npos`. */
  function LastSlash(p: seq<char>): (r: Option<nat>)
    ensures r.None? <==> '/' !in p
    ensures r.Some? ==> r.value < |p| && p[r.value] == '/'
    ensures r.Some? ==> forall i :: r.value < i < |p| ==> p[i] != '/'
    decreases |p|
  {
    if p == [] then None
    else if p[|p| - 1] == '/' then Some(|p| - 1)
    else
      var r := LastSlash(p[..|p| - 1]);
      assert p == p[..|p| - 1] + [p[|p| - 1]];
      r
  }

  /** `GetFileName(path)`: the whole path when it has no '/', otherwise
      everything after the last one. That is the longest suffix of the path
      without a '/': a suffix, free of '/', and either the whole path or
      preceded by a '/'. */
  function GetFileName(p: seq<char>): (r: seq<char>)
    ensures |r| <= |p| && r == p[|p| - |r|..]
    ensures '/' !in r
    ensures '/' !in p ==> r == p
    ensures '/' in p ==> |r| < |p| && p[|p| - |r| - 1] == '/'
  {
    match LastSlash(p)
    case None => p
    case Some(pos) => p[pos + 1..]
  }

  /** A path ending in '/' names nothing. */
  lemma {:induction false} TrailingSlash(p: seq<char>)
    requires |p| > 0 && p[|p| - 1] == '/'
    ensures GetFileName(p) == []
  {
  }

  /** Taking the name of a name changes nothing. */
  lemma {:induction false} GetFileNameIdempotent(p: seq<char>)
    ensures GetFileName(GetFileName(p)) == GetFileName(p)
  {
  }

  /** The name is determined by its characterisation: any suffix free of
      '/' that is the whole path or follows a '/' is the name. */
  lemma {:induction false} GetFileNameUnique(p: seq<char>, r: seq<char>)
    requires |r| <= |p| && r == p[|p| - |r|..] && '/' !in r
    requires |r| == |p| || p[|p| - |r| - 1] == '/'
    ensures GetFileName(p) == r
  {
  }
}
