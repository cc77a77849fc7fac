/** The parts of `pathlib` the gallery builder relies on, for the final
    component `name` of a path: its suffix and stem, and `str.lower` on
    ASCII. */
module Paths {
  import opened Wrappers

  /** The index of the last `.` in `name`, if any. */
  function LastDot(name: string): (i: Option<nat>)
    ensures i.Some? ==> i.value < |name| && name[i.value] == '.'
    ensures i.Some? ==> forall k :: i.value < k < |name| ==> name[k] != '.'
    ensures i.None? ==> forall k :: 0 <= k < |name| ==> name[k] != '.'
  {
    if |name| == 0 then None
    else if name[|name| - 1] == '.' then Some(|name| - 1)
    else LastDot(name[..|name| - 1])
  }

  /** Where the suffix starts: at the last dot, when that dot is neither the
      first nor the last character of the name. */
  function SuffixStart(name: string): (i: nat)
    ensures i <= |name|
  {
    match LastDot(name)
    case Some(i) => if 0 < i < |name| - 1 then i else |name|
    case None => |name|
  }

  /** `PurePath.suffix`: from the last dot on, or empty; a leading dot (a
      hidden file) and a trailing dot do not start a suffix. */
  function Suffix(name: string): (s: string)
    ensures |s| <= |name|
  {
    name[SuffixStart(name)..]
  }

  /** `PurePath.stem`: the name without its suffix. */
  function Stem(name: string): (s: string)
    ensures |s| <= |name|
  {
    name[..SuffixStart(name)]
  }

  /** A name is its stem followed by its suffix; a suffix is empty or a dot
      followed by at least one character none of which is a dot, and a stem
      is never empty unless the name is. */
  lemma StemAndSuffix(name: string)
    ensures Stem(name) + Suffix(name) == name
    ensures Suffix(name) == [] || (|Suffix(name)| >= 2 && Suffix(name)[0] == '.')
    ensures forall k :: 0 < k < |Suffix(name)| ==> Suffix(name)[k] != '.'
    ensures |name| > 0 ==> |Stem(name)| > 0
  {
  }

  /** The last dot of `prefix + ext` is the last dot of `ext`, or of
      `prefix` when `ext` has none. */
  lemma {:induction false} LastDotOfExtension(prefix: string, ext: string)
    requires forall k :: 0 <= k < |ext| ==> ext[k] != '.'
    ensures LastDot(prefix + ext) == LastDot(prefix)
    decreases |ext|
  {
    if |ext| > 0 {
      var init := ext[..|ext| - 1];
      assert (prefix + ext)[|prefix + ext| - 1] == ext[|ext| - 1];
      assert (prefix + ext)[..|prefix + ext| - 1] == prefix + init;
      LastDotOfExtension(prefix, init);
    } else {
      assert prefix + ext == prefix;
    }
  }

  /** Joining a non-empty stem, a dot and a dot-free extension gives back
      that stem and `.` + extension. */
  lemma SplitsAtExtension(stem: string, ext: string)
    requires stem != [] && ext != []
    requires forall k :: 0 <= k < |ext| ==> ext[k] != '.'
    ensures Suffix(stem + "." + ext) == "." + ext
    ensures Stem(stem + "." + ext) == stem
  {
    var name := stem + "." + ext;
    LastDotOfExtension(stem + ".", ext);
    assert (stem + ".")[..|stem|] == stem;
  }

  /** ASCII `str.lower`. */
  function LowerChar(c: char): (l: char)
  {
    if 'A' <= c <= 'Z' then (c as int + 32) as char else c
  }

  function Lower(s: string): (l: string)
    ensures |l| == |s|
    ensures forall i :: 0 <= i < |s| ==> l[i] == LowerChar(s[i])
  {
    if |s| == 0 then [] else [LowerChar(s[0])] + Lower(s[1..])
  }

  /** ASCII `str.upper`, used to state that case does not matter. */
  function UpperChar(c: char): (u: char)
  {
    if 'a' <= c <= 'z' then (c as int - 32) as char else c
  }

  function Upper(s: string): (u: string)
    ensures |u| == |s|
    ensures forall i :: 0 <= i < |s| ==> u[i] == UpperChar(s[i])
  {
    if |s| == 0 then [] else [UpperChar(s[0])] + Upper(s[1..])
  }

  /** Lowering is idempotent and forgets the case the text was written in. */
  lemma LowerForgetsCase(s: string)
    ensures Lower(Lower(s)) == Lower(s)
    ensures Lower(Upper(s)) == Lower(s)
  {
  }

  /** Changing case keeps every dot where it was, so the suffix of the
      upper-cased name is the upper-cased suffix. */
  lemma {:induction false} UpperKeepsSuffix(name: string)
    ensures Suffix(Upper(name)) == Upper(Suffix(name))
  {
    UpperKeepsLastDot(name);
    var i := SuffixStart(name);
    assert SuffixStart(Upper(name)) == i;
    var a, b := Upper(name)[i..], Upper(name[i..]);
    assert |a| == |b|;
    assert forall k :: 0 <= k < |a| ==> a[k] == b[k];
  }

  lemma {:induction false} UpperKeepsLastDot(name: string)
    ensures LastDot(Upper(name)) == LastDot(name)
    decreases |name|
  {
    if |name| > 0 {
      var n := |name| - 1;
      var upper := Upper(name);
      UpperKeepsDot(name[n]);
      assert upper[n] == UpperChar(name[n]);
      assert upper[..n] == Upper(name[..n]);
      UpperKeepsLastDot(name[..n]);
    }
  }

  /** A character is a dot exactly when its upper case is. */
  lemma UpperKeepsDot(c: char)
    ensures UpperChar(c) == '.' <==> c == '.'
  {
  }
}
