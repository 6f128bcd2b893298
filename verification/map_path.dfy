/** The path normalisation of the editor's `load` and `save` console
    commands.

    The argument is placed in the `maps/` directory unless it already starts
    there, and gets the `.map` extension unless it already ends with it; both
    tests ignore ASCII case. The result is formatted into a 256-byte buffer,
    so at most 255 characters survive. Characters stand for the bytes of a
    C string.
 */
module MapPath {
  import opened Text

  /** The buffer size: room for 255 characters and the terminator. */
  const PathBufferSize: nat := 256
  const MaxPathLength: nat := PathBufferSize - 1

  const MapsDir: string := "maps/"
  const MapExtension: string := ".map"

  /** The argument already names a file under `maps/`: its first five
      characters compare equal to `maps/` ignoring case (a shorter argument
      differs at its terminator). */
  predicate InMapsDir(s: string) {
    |s| >= |MapsDir| && SameNoCase(s[..|MapsDir|], MapsDir)
  }

  /** The argument already has the extension: it is longer than four
      characters and its last four compare equal to `.map` ignoring case. */
  predicate HasMapExtension(s: string) {
    |s| > |MapExtension| && SameNoCase(s[|s| - |MapExtension|..], MapExtension)
  }

  /** Formatting into a buffer of `size` bytes keeps at most `size - 1`
      characters. */
  function Bounded(s: string, size: nat): (r: string)
    requires size >= 1
    ensures |r| == if |s| < size then |s| else size - 1
    ensures r == s[..|r|]
  {
    if |s| < size then s else s[..size - 1]
  }

  /** The path `ConLoad` and `ConSave` hand to the map loader and saver. */
  function NormalizedPath(arg: string): (r: string)
    ensures |r| <= MaxPathLength
    ensures InMapsDir(r)
    ensures |r| < MaxPathLength ==> HasMapExtension(r)
  {
    var dir := if InMapsDir(arg) then "" else MapsDir;
    var ext := if HasMapExtension(arg) then "" else MapExtension;
    var full := dir + arg + ext;
    assert InMapsDir(full) by {
      if InMapsDir(arg) {
        assert full[..|MapsDir|] == arg[..|MapsDir|];
      } else {
        assert full[..|MapsDir|] == MapsDir;
      }
    }
    assert HasMapExtension(full) by {
      if HasMapExtension(arg) {
        assert full[|full| - 4..] == arg[|arg| - 4..];
      } else {
        assert full[|full| - 4..] == MapExtension;
      }
    }
    var r := Bounded(full, PathBufferSize);
    assert r[..|MapsDir|] == full[..|MapsDir|];
    r
  }

  /** Without truncation the argument appears whole in the result, right
      after the directory prefix if one was added, and only the extension
      may follow it. */
  lemma KeepsArgument(arg: string)
    requires |MapsDir| + |arg| + |MapExtension| <= MaxPathLength
    ensures var r, k := NormalizedPath(arg), if InMapsDir(arg) then 0 else |MapsDir|;
            && k + |arg| <= |r|
            && r[k..k + |arg|] == arg
            && (k == 0 || r[..k] == MapsDir)
            && (r[k + |arg|..] == [] || r[k + |arg|..] == MapExtension)
  {
  }

  /** An already-normal path is normalised to the same path again, so
      normalising twice is normalising once. */
  lemma {:induction false} Idempotent(arg: string)
    ensures NormalizedPath(NormalizedPath(arg)) == NormalizedPath(arg)
  {
    var r := NormalizedPath(arg);
    FixedIff(r);
  }

  /** Exactly the paths within the buffer that lie under `maps/` and either
      end in `.map` or fill the buffer are left unchanged: a full buffer
      has no room for the extension. */
  lemma {:induction false} FixedIff(s: string)
    ensures NormalizedPath(s) == s <==>
              |s| <= MaxPathLength && InMapsDir(s) && (HasMapExtension(s) || |s| == MaxPathLength)
  {
    var r := NormalizedPath(s);
    if r == s {
      assert |s| <= MaxPathLength && InMapsDir(s);
      if !HasMapExtension(s) {
        assert |s| == MaxPathLength;
      }
    }
    if |s| <= MaxPathLength && InMapsDir(s) && (HasMapExtension(s) || |s| == MaxPathLength) {
      if HasMapExtension(s) {
        assert r == s;
      } else {
        assert r == (s + MapExtension)[..|s|];
        assert (s + MapExtension)[..|s|] == s;
      }
    }
  }

  /** A plain name gains both parts. */
  lemma PlainNameExample()
    ensures NormalizedPath("ctf5") == "maps/ctf5.map"
  {
    assert Lower("ctf5"[0]) != Lower(MapsDir[0]);
  }

  /** Both tests ignore case. */
  lemma MixedCaseExample()
    ensures NormalizedPath("MAPS/Dm1.MAP") == "MAPS/Dm1.MAP"
  {
    assert InMapsDir("MAPS/Dm1.MAP");
    assert "MAPS/Dm1.MAP"[8..] == ".MAP";
    assert HasMapExtension("MAPS/Dm1.MAP");
  }

  /** A name under `maps/` only gains the extension. */
  lemma DirOnlyExample()
    ensures NormalizedPath("maps/x") == "maps/x.map"
  {
    assert InMapsDir("maps/x");
    assert "maps/x"[2..][0] == 'p';
  }

  /** An argument of four characters or fewer always gets the extension,
      even `.map` itself. */
  lemma ShortNameExample()
    ensures NormalizedPath(".map") == "maps/.map.map"
  {
    assert Lower(".map"[0]) != Lower(MapsDir[0]);
  }
}
