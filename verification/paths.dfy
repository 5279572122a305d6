/** Slash-separated path helpers, as Go's `path/filepath` package computes them
    on a Unix host, where `/` is the only separator. */
module Paths {

  /** True when `s` ends with `suffix`. */
  predicate IsSuffix(suffix: string, s: string) {
    |suffix| <= |s| && suffix == s[|s| - |suffix|..]
  }

  /** The file part of `filepath.Split`: everything after the last `/`
      (the whole path when it holds no `/`, the empty string when it ends
      with one). */
  function BaseName(path: string): (name: string)
    ensures IsSuffix(name, path)
    ensures '/' !in name
    ensures |name| < |path| ==> path[|path| - |name| - 1] == '/'
  {
    if |path| == 0 || path[|path| - 1] == '/' then []
    else BaseName(path[..|path| - 1]) + [path[|path| - 1]]
  }

  /** `filepath.Ext`: the suffix that starts at the last `.` of the final path
      element, or the empty string when that element holds no `.`. */
  function Ext(path: string): (ext: string)
    ensures ext == [] <==> '.' !in BaseName(path)
    ensures ext != [] ==> ext[0] == '.' && '.' !in ext[1..]
    ensures IsSuffix(ext, BaseName(path))
  {
    if |path| == 0 || path[|path| - 1] == '/' then []
    else if path[|path| - 1] == '.' then "."
    else
      var inner := Ext(path[..|path| - 1]);
      if inner == [] then [] else inner + [path[|path| - 1]]
  }
}
