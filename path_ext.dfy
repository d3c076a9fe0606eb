/**
 * `std::filesystem::path::extension` and `has_extension` applied to a file name, as
 * ISO/IEC 14882:2017 section 30.10.8.4.9 [fs.path.decompose] defines them: the suffix
 * from the rightmost period, empty when there is no period, when the name is `.` or
 * `..`, or when its only period is the first character (a dot-file).
 */
module PathExt {
  import opened Text

  /** Index of the rightmost `c` in `s`, if there is one. */
  function LastIndexOf(s: string, c: char): (r: Option<nat>)
    ensures r.Some? ==> r.value < |s| && s[r.value] == c
    ensures r.Some? ==> forall k :: r.value < k < |s| ==> s[k] != c
    ensures r.None? ==> forall k :: 0 <= k < |s| ==> s[k] != c
    decreases |s|
  {
    if s == [] then None
    else if s[|s| - 1] == c then Some(|s| - 1)
    else LastIndexOf(s[..|s| - 1], c)
  }

  /** The extension of file name `name`: empty, or a proper suffix that begins with its only period. */
  function Extension(name: string): (e: string)
    ensures e != [] ==> e[0] == '.' && |e| < |name| && e == name[|name| - |e|..]
    ensures forall k :: 1 <= k < |e| ==> e[k] != '.'
  {
    if name == "." || name == ".." then ""
    else match LastIndexOf(name, '.')
      case None => ""
      case Some(p) => if p == 0 then "" else name[p..]
  }

  predicate HasExtension(name: string) {
    Extension(name) != ""
  }

  /** A name has an extension exactly when it is not `..` and has a period after its first character. */
  lemma HasExtensionIff(name: string)
    ensures HasExtension(name) <==> name != ".." && exists p :: 1 <= p < |name| && name[p] == '.'
  {
    if name != "." && name != ".." && exists p :: 1 <= p < |name| && name[p] == '.' {
      var p :| 1 <= p < |name| && name[p] == '.';
      var r := LastIndexOf(name, '.');
      assert r.Some? && r.value >= p;
    }
  }

  /** Round trip: a stem, a period and a period-free suffix give that suffix back as the extension. */
  lemma ExtensionOfJoin(stem: string, ext: string)
    requires stem != []
    requires forall k :: 0 <= k < |ext| ==> ext[k] != '.'
    requires !(stem == "." && ext == "")
    ensures Extension(stem + "." + ext) == "." + ext
  {
    var name := stem + "." + ext;
    var r := LastIndexOf(name, '.');
    assert name[|stem|] == '.';
    assert forall k :: |stem| < k < |name| ==> name[k] == ext[k - |stem| - 1];
    assert r.Some? && r.value == |stem|;
    assert name[|stem|..] == "." + ext;
    assert name[..|stem|] == stem;
    assert name != "." && name != "..";
  }

  /** Dot-files such as `.profile` have no extension. */
  lemma DotFileHasNoExtension(name: string)
    requires |name| >= 1 && name[0] == '.'
    requires forall k :: 1 <= k < |name| ==> name[k] != '.'
    ensures !HasExtension(name)
  {
    HasExtensionIff(name);
  }
}
