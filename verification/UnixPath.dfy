/** `UnixPath`: a path whose separators are forward slashes. */
module UnixPath {

  import opened JavaLang

  /** The stored `path` string. It is built from `Path.toString()`; how
      `Paths.get` parses its argument depends on the platform's file system
      and is not part of this model, so the constructors take the text of the
      `Path` directly. */
  datatype UnixPath = UnixPath(path: string) {
    /** `toString()` */
    function ToString(): string {
      path
    }
  }

  /** `path.toString().replace("\\", "/")`. */
  function ToForwardSlashes(p: string): (r: string)
    ensures |r| == |p|
    ensures forall i :: 0 <= i < |p| ==> r[i] == if p[i] == '\\' then '/' else p[i]
  {
    ReplaceChar(p, '\\', '/');
    Replace(p, "\\", "/")
  }

  /** `UnixPath.get(Path)` and, given the text of `Paths.get(path)`,
      `UnixPath.get(String)`: the private constructor. */
  function Get(pathText: string): (u: UnixPath)
    ensures '\\' !in u.ToString()
    ensures |u.ToString()| == |pathText|
  {
    UnixPath(ToForwardSlashes(pathText))
  }

  /** Converting an already converted path changes nothing. */
  lemma ConversionIdempotent(p: string)
    ensures ToForwardSlashes(ToForwardSlashes(p)) == ToForwardSlashes(p)
    ensures Get(Get(p).ToString()) == Get(p)
  {
  }

  /** Only backslashes change: a path without any is stored as it is, and
      two paths convert alike exactly when they agree up to the choice of
      slash. */
  lemma ConversionOnlyTouchesBackslashes(p: string, q: string)
    ensures '\\' !in p ==> Get(p).ToString() == p
    ensures Get(p) == Get(q) <==>
      |p| == |q| && forall i :: 0 <= i < |p| ==>
        (p[i] == q[i] || (p[i] in "/\\" && q[i] in "/\\"))
  {
    if Get(p) == Get(q) {
      forall i | 0 <= i < |p|
        ensures p[i] == q[i] || (p[i] in "/\\" && q[i] in "/\\")
      {
        assert ToForwardSlashes(p)[i] == ToForwardSlashes(q)[i];
      }
    }
  }

  /** `C:\path\to\file` becomes `C:/path/to/file`. */
  lemma ConversionExample()
    ensures Get("C:\\path\\to\\file").ToString() == "C:/path/to/file"
  {
    ConvertsTo("C:\\path\\to\\file", "C:/path/to/file");
  }

  /** The conversion is fixed by what it does to each character. */
  lemma ConvertsTo(p: string, q: string)
    requires |q| == |p|
    requires forall i :: 0 <= i < |p| ==> q[i] == if p[i] == '\\' then '/' else p[i]
    ensures Get(p).ToString() == q
  {
  }
}
