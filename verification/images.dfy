/**
 Decoded screenshots and the loader's pure part: the file name taken from
 a path, and the default test information synthesised for an image that
 has no sidecar metadata file.
 */
module Images {
  import opened Basics

  /** A decoded PNG: its pixel buffer read as 32-bit words. */
  datatype Image = Image(width: nat, height: nat, data: seq<bv32>)

  /** The rectangle of interest within the decoded image. */
  datatype Viewport = Viewport(x: nat, y: nat, width: nat, height: nat, scale: real)

  /** Sidecar metadata (or its synthesised default). */
  datatype TestInformation = TestInformation(name: string, viewport: Viewport)

  /** What the loader hands the diff engine for one existing file. */
  datatype Screenshot = Screenshot(image: Image, info: TestInformation)

  /** Characters that the regular-expression `.` does not match. */
  predicate IsLineTerminator(ch: char)
  {
    ch == '\n' || ch == '\r' || ch == '\U{2028}' || ch == '\U{2029}'
  }

  /** Index of the first line terminator, or |p| when there is none. */
  function LineEnd(p: string): (r: nat)
    ensures r <= |p|
    ensures forall i :: 0 <= i < r ==> !IsLineTerminator(p[i])
    ensures r < |p| ==> IsLineTerminator(p[r])
  {
    if p == [] then 0
    else if IsLineTerminator(p[0]) then 0
    else 1 + LineEnd(p[1..])
  }

  /** Index of the last '/' strictly before position n. */
  function LastSlashBefore(p: string, n: nat): (r: Option<nat>)
    requires n <= |p|
    ensures r.Some? ==>
      && r.value < n && p[r.value] == '/'
      && forall i :: r.value < i < n ==> p[i] != '/'
    ensures r.None? ==> forall i :: 0 <= i < n ==> p[i] != '/'
  {
    if n == 0 then None
    else if p[n - 1] == '/' then Some(n - 1)
    else LastSlashBefore(p, n - 1)
  }

  /**
   The file name of a path: `path.replace(/^.*\//, "")`. The pattern is
   anchored at the start and `.` stops at a line terminator, so it removes
   everything up to the last '/' of the first line; without such a '/'
   the path is returned unchanged.
   */
  function FileNameFromPath(p: string): (r: string)
    ensures |r| <= |p| && r == p[|p| - |r|..]
    ensures r == p || p[|p| - |r| - 1] == '/'
    ensures (forall i :: 0 <= i < |p| ==> !IsLineTerminator(p[i])) ==> '/' !in r
  {
    var cut := LastSlashBefore(p, LineEnd(p));
    if cut.None? then p else p[cut.value + 1..]
  }

  /** The test information synthesised when no sidecar file exists. */
  function DefaultInformation(path: string, image: Image): TestInformation
  {
    TestInformation(FileNameFromPath(path), Viewport(0, 0, image.width, image.height, 1.0))
  }

  /**
   Loading one side of a pair. `image` is the decoded file when it exists,
   `sidecar` the parsed metadata file when it exists. A missing image file
   yields no screenshot at all, and the sidecar is then ignored; a present
   image without a sidecar gets a viewport covering the whole image at
   scale 1, named after the path's file name.
   */
  function Load(path: string, image: Option<Image>, sidecar: Option<TestInformation>): (r: Option<Screenshot>)
    ensures r.Some? <==> image.Some?
    ensures r.Some? ==> r.value.image == image.value
    ensures r.Some? && sidecar.Some? ==> r.value.info == sidecar.value
    ensures r.Some? && sidecar.None? ==>
      && r.value.info.viewport == Viewport(0, 0, image.value.width, image.value.height, 1.0)
      && r.value.info.name == FileNameFromPath(path)
  {
    match image
    case None => None
    case Some(img) =>
      var info := if sidecar.Some? then sidecar.value else DefaultInformation(path, img);
      Some(Screenshot(img, info))
  }

  /** A single-line path loses every directory: what remains is the text
      after its last '/'. */
  lemma FileNameStripsDirectories(dir: string, name: string)
    requires forall i :: 0 <= i < |dir + "/" + name| ==> !IsLineTerminator((dir + "/" + name)[i])
    requires '/' !in name
    ensures FileNameFromPath(dir + "/" + name) == name
  {
    var p := dir + "/" + name;
    assert LineEnd(p) == |p|;
    var cut := LastSlashBefore(p, |p|);
    assert p[|dir|] == '/';
    assert forall i :: |dir| < i < |p| ==> p[i] == name[i - |dir| - 1];
    assert cut == Some(|dir|);
    assert p[|dir| + 1..] == name;
  }

  /** The last '/' before position n depends only on the first n characters. */
  lemma {:induction false} LastSlashPrefix(p: string, q: string, n: nat)
    requires n <= |p| && n <= |q| && p[..n] == q[..n]
    ensures LastSlashBefore(p, n) == LastSlashBefore(q, n)
  {
    if n > 0 {
      assert p[n - 1] == p[..n][n - 1] == q[..n][n - 1] == q[n - 1];
      if p[n - 1] != '/' {
        assert p[..n - 1] == p[..n][..n - 1] && q[..n - 1] == q[..n][..n - 1];
        LastSlashPrefix(p, q, n - 1);
      }
    }
  }

  /** Cutting a path at a line terminator keeps its first line end. */
  lemma LineEndPrefix(p: string, i: nat)
    requires i < |p| && IsLineTerminator(p[i])
    ensures LineEnd(p) <= i && LineEnd(p[..i]) == LineEnd(p)
  {
  }

  /**
   Only the first line is searched for the last '/': for a line
   terminator at position i, the name of the path is the name of the text
   before i followed by everything from i on, unchanged.
   */
  lemma FileNameStopsAtLineTerminator(p: string, i: nat)
    requires i < |p| && IsLineTerminator(p[i])
    ensures FileNameFromPath(p) == FileNameFromPath(p[..i]) + p[i..]
  {
    var q := p[..i];
    var e := LineEnd(p);
    LineEndPrefix(p, i);
    assert p[..e] == q[..e];
    LastSlashPrefix(p, q, e);
    var cut := LastSlashBefore(p, e);
    if cut.Some? {
      assert p[cut.value + 1..] == q[cut.value + 1..] + p[i..];
    } else {
      assert p == q + p[i..];
    }
  }
}
