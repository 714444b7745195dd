/** The repair applied to the response body before it is parsed as JSON:
    the upstream document ends in a trailing comma, so every `','` among the
    last 10 characters becomes a space. Characters are single units here. */
module TailPatch {

  /** Width of the patched window at the end of the body. */
  const Window: nat := 10

  /** `str::replace` with a one-character pattern and a one-character
      replacement. */
  function Replace(s: string, from: char, to: char): (r: string)
    ensures |r| == |s|
    ensures forall i :: 0 <= i < |s| ==> r[i] == if s[i] == from then to else s[i]
  {
    if s == [] then []
    else [if s[0] == from then to else s[0]] + Replace(s[1..], from, to)
  }

  /** The body after the patch. The source subtracts the window from the
      length without a guard, so a shorter body panics. */
  function PatchedTail(r: string): (p: string)
    requires |r| >= Window
    ensures |p| == |r|
    ensures p[..|r| - Window] == r[..|r| - Window]
    ensures forall i :: |r| - Window <= i < |r| ==> p[i] == if r[i] == ',' then ' ' else r[i]
  {
    r[..|r| - Window] + Replace(r[|r| - Window..], ',', ' ')
  }

  /** Splits the body at `len - 10`, keeps the first part and extends it
      character by character with the comma-free last part. */
  method PatchTail(r: string) returns (patched: string)
    requires |r| >= Window
    ensures patched == PatchedTail(r)
  {
    var len := |r|;
    var first, last := r[..len - Window], r[len - Window..];
    patched := first;
    var tail := Replace(last, ',', ' ');
    var k := 0;
    while k < |tail|
      invariant 0 <= k <= |tail|
      invariant patched == first + tail[..k]
    {
      patched := patched + [tail[k]];
      k := k + 1;
    }
    assert tail[..k] == tail;
  }

  /** After the patch no comma is left in the window. */
  lemma NoCommaInWindow(r: string)
    requires |r| >= Window
    ensures ',' !in PatchedTail(r)[|r| - Window..]
  {
    var w := PatchedTail(r)[|r| - Window..];
    forall k | 0 <= k < Window ensures w[k] != ',' {
      assert w[k] == PatchedTail(r)[|r| - Window + k];
    }
  }

  /** Patching twice is patching once. */
  lemma PatchIdempotent(r: string)
    requires |r| >= Window
    ensures PatchedTail(PatchedTail(r)) == PatchedTail(r)
  {
    var p := PatchedTail(r);
    var pp := PatchedTail(p);
    assert pp[..|r| - Window] == p[..|r| - Window];
    forall i | 0 <= i < |r| ensures pp[i] == p[i] {
      if i < |r| - Window {
        assert pp[i] == pp[..|r| - Window][i];
        assert p[i] == p[..|r| - Window][i];
      }
    }
  }

  /** A body whose window holds no comma is left as it is. */
  lemma PatchWithoutComma(r: string)
    requires |r| >= Window
    requires ',' !in r[|r| - Window..]
    ensures PatchedTail(r) == r
  {
    var p := PatchedTail(r);
    forall i | 0 <= i < |r| ensures p[i] == r[i] {
      if i < |r| - Window {
        assert p[i] == p[..|r| - Window][i];
        assert r[i] == r[..|r| - Window][i];
      } else {
        assert r[i] == r[|r| - Window..][i - (|r| - Window)];
      }
    }
  }
}
