/** The part of Go's `path/filepath` package the download handler relies on:
    `filepath.Ext` on a Unix host, where `/` is the only path separator.

    Go scans the bytes of the UTF-8 encoding; the bytes of `.` and `/` never
    occur inside a multi-byte sequence, so scanning characters gives the same
    split point. */
module GoPath {

  const Separator: char := '/'

  /** `e` is what `filepath.Ext(p)` returns: the suffix of `p` that starts at
      the last `.` of the final path element, or "" when the final element
      holds no `.`. */
  ghost predicate IsExtOf(p: string, e: string)
  {
    && |e| <= |p|
    && e == p[|p| - |e|..]
    && (e != "" ==>
          && e[0] == '.'
          && forall i :: 1 <= i < |e| ==> e[i] != '.' && e[i] != Separator)
    && (e == "" ==>
          forall i :: 0 <= i < |p| && Separator !in p[i..] ==> p[i] != '.')
  }

  /** `filepath.Ext`: walk back from the end of `p`, stop at a separator,
      return everything from the first `.` met on the way. */
  function Ext(p: string): (e: string)
    ensures IsExtOf(p, e)
    decreases |p|
  {
    if |p| == 0 then ""
    else
      var last := p[|p| - 1];
      if last == Separator then
        assert forall i :: 0 <= i < |p| ==> p[i..][|p| - 1 - i] == Separator;
        ""
      else if last == '.' then "."
      else
        var init := p[..|p| - 1];
        var e := Ext(init);
        if e == "" then
          assert forall i :: 0 <= i < |init| ==> init[i..] + [last] == p[i..];
          ""
        else
          assert init[|init| - |e|..] + [last] == p[|p| - |e| - 1..];
          e + [last]
  }

  /** There is only one extension of a path: `IsExtOf` pins `Ext` down. */
  lemma {:induction false} ExtUnique(p: string, e: string)
    requires IsExtOf(p, e)
    ensures e == Ext(p)
    decreases |p|
  {
    if |p| > 0 {
      var last := p[|p| - 1];
      assert e != "" ==> e[|e| - 1] == last;
      if last == '.' {
        assert Separator !in p[|p| - 1..];
      } else if last != Separator {
        var init := p[..|p| - 1];
        var e' := if e == "" then "" else e[..|e| - 1];
        assert e' == init[|init| - |e'|..];
        assert forall i :: 0 <= i < |init| ==> init[i..] + [last] == p[i..];
        ExtUnique(init, e');
      }
    }
  }
}
