/**
 * The part of `pathlib.PurePath` the redaction engine uses to name its output:
 * `name`, `stem` and `with_name`, for POSIX paths.
 */
module PyPath {
  import opened Options

  /**
   * A path split into its directory part and its final component `name`.
   * The name holds no '/'; it is "" exactly for paths such as "." and "/".
   */
  datatype Path = Path(parent: string, name: string)

  /** `s.rfind(c)`: the index of the last `c` in `s`, or -1. */
  function RFind(s: string, c: char): (i: int)
    ensures -1 <= i < |s|
    ensures i >= 0 ==> s[i] == c
    ensures forall k :: i < k < |s| ==> s[k] != c
  {
    if s == [] then -1
    else if s[|s| - 1] == c then |s| - 1
    else RFind(s[..|s| - 1], c)
  }

  /**
   * `PurePath.stem`: the name without its last suffix. The suffix starts at the
   * last '.', and only when that dot is neither the first nor the last character.
   */
  function Stem(name: string): (stem: string)
    ensures |stem| <= |name| && stem == name[..|stem|]
  {
    var i := RFind(name, '.');
    if 0 < i < |name| - 1 then name[..i] else name
  }

  /** The names `with_name` accepts: not empty, not ".", and without a separator. */
  predicate IsValidName(name: string) {
    name != "" && name != "." && '/' !in name
  }

  /**
   * `p.with_name(name)`: the same directory with another final component; None
   * stands for the ValueError pathlib raises when `p` has an empty name or the
   * new name is not a valid one.
   */
  function WithName(p: Path, name: string): (r: Option<Path>)
    ensures r.Some? <==> p.name != "" && IsValidName(name)
    ensures r.Some? ==> r.value.parent == p.parent && r.value.name == name
  {
    if p.name == "" || !IsValidName(name) then None
    else Some(Path(p.parent, name))
  }

  /** The stem is the name up to its last dot, or the whole name when that dot is first or last. */
  lemma {:induction false} StemSplitsAtLastDot(name: string)
    ensures var stem := Stem(name);
      || stem == name
      || (0 < |stem| < |name| - 1 && name[|stem|] == '.'
          && forall k :: |stem| < k < |name| ==> name[k] != '.')
    ensures Stem(name) != name <==> LastDotSplits(name)
  {
    var i := RFind(name, '.');
    if LastDotSplits(name) {
      var k :| IsLastDot(name, k) && 0 < k < |name| - 1;
      assert k == i;
    }
    if 0 < i < |name| - 1 {
      assert IsLastDot(name, i);
    }
  }

  /** `k` is the position of the last '.' of `name`. */
  predicate IsLastDot(name: string, k: int) {
    0 <= k < |name| && name[k] == '.' && forall m :: k < m < |name| ==> name[m] != '.'
  }

  /** The last '.' of `name` is neither its first nor its last character. */
  predicate LastDotSplits(name: string) {
    exists k :: IsLastDot(name, k) && 0 < k < |name| - 1
  }

  /** A stem holds no '/' when the name holds none. */
  lemma {:induction false} StemHasNoSeparator(name: string)
    requires '/' !in name
    ensures '/' !in Stem(name)
  {
    var stem := Stem(name);
    assert forall k :: 0 <= k < |stem| ==> stem[k] == name[k];
  }
}
