/** Path strings and the components they name (`normalize_path` and `split_path` of fs/filesystem.c). */
module Paths {
  import opened Bytes

  /** The components of a path, outermost first. */
  type Path = seq<Str>

  const ROOT: Str := [SLASH]
  const SELF: Str := [DOT]
  const UP: Str := [DOT, DOT]

  predicate IsComponent(c: Str) { c != [] && SLASH !in c }

  predicate IsPath(cs: Path) { forall i | 0 <= i < |cs| :: IsComponent(cs[i]) }

  function Last<T>(s: seq<T>): T
    requires s != []
  {
    s[|s| - 1]
  }

  /** A path without its last component; the root is its own parent. */
  function Parent(cs: Path): Path { if cs == [] then [] else cs[..|cs| - 1] }

  function Name(cs: Path): Str { if cs == [] then [] else Last(cs) }

  /** The components of `p`, read character by character: a slash ends a component, empty components vanish. */
  function Comps(p: Str): (cs: Path)
    ensures IsPath(cs)
  {
    if p == [] then []
    else
      var cs := Comps(p[..|p| - 1]);
      if Last(p) == SLASH then cs
      else if |p| == 1 || p[|p| - 2] == SLASH || cs == [] then cs + [[Last(p)]]
      else cs[..|cs| - 1] + [Last(cs) + [Last(p)]]
  }

  /** Every component preceded by one slash. */
  function Slashed(cs: Path): Str {
    if cs == [] then [] else Slashed(cs[..|cs| - 1]) + [SLASH] + Last(cs)
  }

  /** The canonical absolute spelling of a component list. */
  function Canon(cs: Path): Str { if cs == [] then ROOT else Slashed(cs) }

  // ---------------------------------------------------------------- facts about components

  lemma CompsOpen(p: Str)
    requires p != [] && Last(p) != SLASH
    ensures Comps(p) != []
  {
  }

  /** Appending one character. */
  lemma CompsSnoc(p: Str, c: Char8)
    ensures c == SLASH ==> Comps(p + [c]) == Comps(p)
    ensures c != SLASH && (p == [] || Last(p) == SLASH) ==> Comps(p + [c]) == Comps(p) + [[c]]
    ensures c != SLASH && p != [] && Last(p) != SLASH ==>
      Comps(p) != [] && Comps(p + [c]) == Parent(Comps(p)) + [Last(Comps(p)) + [c]]
  {
    assert (p + [c])[..|p|] == p;
    if p != [] && Last(p) != SLASH {
      CompsOpen(p);
    }
  }

  lemma {:induction false} CompsAppendWord(p: Str, w: Str)
    requires p == [] || Last(p) == SLASH
    requires IsComponent(w)
    ensures Comps(p + w) == Comps(p) + [w]
  {
    var v, c := w[..|w| - 1], Last(w);
    assert p + w == (p + v) + [c] && v + [c] == w;
    assert c in w;
    CompsSnoc(p + v, c);
    if v == [] {
      assert p + v == p;
    } else {
      assert Last(p + v) == Last(v) && Last(v) in w;
      CompsAppendWord(p, v);
      assert Parent(Comps(p) + [v]) == Comps(p);
    }
  }

  /** Joining at a slash, on either side, joins the component lists. */
  lemma {:induction false} CompsConcat(p: Str, q: Str)
    requires p == [] || q == [] || Last(p) == SLASH || q[0] == SLASH
    ensures Comps(p + q) == Comps(p) + Comps(q)
  {
    if q == [] {
      assert p + q == p;
    } else {
      var r, c := q[..|q| - 1], Last(q);
      assert p + q == (p + r) + [c] && q == r + [c];
      CompsConcat(p, r);
      CompsConcatSnoc(p, r, c);
    }
  }

  lemma CompsConcatSnoc(p: Str, r: Str, c: Char8)
    requires p == [] || Last(p) == SLASH || (r + [c])[0] == SLASH
    requires Comps(p + r) == Comps(p) + Comps(r)
    ensures Comps(p + r + [c]) == Comps(p) + Comps(r + [c])
  {
    hide Comps;
    CompsSnoc(p + r, c);
    CompsSnoc(r, c);
    if r == [] {
      assert p + r == p;
    } else {
      assert Last(p + r) == Last(r) && (r + [c])[0] == r[0];
      if c != SLASH && Last(r) != SLASH {
        ParentConcat(Comps(p), Comps(r));
      }
    }
  }

  lemma ParentConcat(ps: Path, qs: Path)
    requires qs != []
    ensures Parent(ps + qs) == ps + Parent(qs) && Last(ps + qs) == Last(qs)
  {
  }

  lemma {:induction false} CompsOfSlashed(cs: Path)
    requires IsPath(cs)
    ensures Comps(Slashed(cs)) == cs
  {
    hide Comps;
    NoText();
    if cs != [] {
      var front := cs[..|cs| - 1];
      CompsOfSlashed(front);
      CompsSnoc(Slashed(front), SLASH);
      CompsAppendWord(Slashed(front) + [SLASH], Last(cs));
    }
  }

  /** Splitting the canonical spelling gives the components back. */
  lemma CompsOfCanon(cs: Path)
    requires IsPath(cs)
    ensures Comps(Canon(cs)) == cs
  {
    CompsOfSlashed(cs);
    CompsSnoc([], SLASH);
  }

  lemma {:induction false} SlashedConcat(as_: Path, bs: Path)
    ensures Slashed(as_ + bs) == Slashed(as_) + Slashed(bs)
  {
    if bs == [] {
      assert as_ + bs == as_;
    } else {
      var front := bs[..|bs| - 1];
      assert (as_ + bs)[..|as_ + bs| - 1] == as_ + front;
      SlashedConcat(as_, front);
    }
  }

  /** For example: slashes may be repeated, in front and behind. */
  lemma CompsExample(a: Str, b: Str)
    requires IsComponent(a) && IsComponent(b)
    ensures Comps([47] + a + [47, 47] + b + [47]) == [a, b] && Canon([a, b]) == [47] + a + [47] + b
  {
    hide Comps;
    CompsSnoc([], 47);
    assert Comps([]) == [] by { NoText(); }
    assert [] + [47] == [47];
    CompsAppendWord([47], a);
    CompsSnoc([47] + a, 47);
    CompsSnoc([47] + a + [47], 47);
    assert [47] + a + [47, 47] == [47] + a + [47] + [47];
    CompsAppendWord([47] + a + [47, 47], b);
    CompsSnoc([47] + a + [47, 47] + b, 47);
    assert [a, b][..1] == [a] && [a][..0] == [];
    assert Slashed([]) == [] && Slashed([a]) == [] + [47] + a;
  }

  lemma NoText()
    ensures Comps([]) == []
  {
  }

  // ---------------------------------------------------------------- normalize_path

  /** What `normalize_path` has written when the text read so far is `p`. */
  function Written(p: Str): Str {
    Slashed(Comps(p)) + if Comps(p) == [] || Last(p) == SLASH then ROOT else []
  }

  lemma WrittenSnoc(p: Str, c: Char8)
    ensures c == SLASH && p != [] && Last(p) == SLASH ==> Written(p + [c]) == Written(p)
    ensures c == SLASH && p != [] && Last(p) != SLASH ==> Written(p + [c]) == Written(p) + [c]
    ensures p == [] && c == SLASH ==> Written(p + [c]) == [c]
    ensures c != SLASH ==> Written(p + [c]) == Written(p) + [c]
  {
    hide Comps, Slashed;
    NoText();
    CompsSnoc(p, c);
    var cs := Comps(p);
    SlashedSnoc([], []);
    if c == SLASH {
      if p != [] && Last(p) != SLASH {
        CompsOpen(p);
      }
    } else if p == [] || Last(p) == SLASH {
      SlashedSnoc(cs, [c]);
    } else {
      SlashedSnoc(Parent(cs), Last(cs) + [c]);
      SlashedSnoc(Parent(cs), Last(cs));
      assert Parent(cs) + [Last(cs)] == cs;
    }
  }

  lemma SlashedSnoc(cs: Path, w: Str)
    ensures Slashed(cs + [w]) == Slashed(cs) + [SLASH] + w && Slashed([]) == []
  {
    assert (cs + [w])[..|cs|] == cs;
  }

  /** The canonical form is absolute, keeps the components and never ends in a slash unless it is the root. */
  method NormalizePath(path: Str) returns (normalized: Str)
    ensures normalized == Canon(Comps(path))
  {
    normalized := [];
    if path == [] || path[0] != SLASH {
      normalized := normalized + [SLASH];
    }
    var lastWasSlash := path != [] && path[0] == SLASH;
    var i := 0;
    while i < |path|
      invariant 0 <= i <= |path|
      invariant i == 0 && path != [] && path[0] == SLASH ==> normalized == [] && lastWasSlash
      invariant i == 0 && (path == [] || path[0] != SLASH) ==> normalized == ROOT && !lastWasSlash
      invariant i > 0 ==> normalized == Written(path[..i]) && lastWasSlash == (path[i - 1] == SLASH)
    {
      assert path[..i + 1] == path[..i] + [path[i]];
      WrittenSnoc(path[..i], path[i]);
      if path[i] == SLASH {
        if !lastWasSlash && |normalized| > 0 {
          normalized := normalized + [SLASH];
          lastWasSlash := true;
        } else if |normalized| == 0 {
          normalized := normalized + [SLASH];
          lastWasSlash := true;
        }
      } else {
        normalized := normalized + [path[i]];
        lastWasSlash := false;
      }
      i := i + 1;
    }
    assert path[..|path|] == path;
    assert normalized == Written(path);
    if Comps(path) != [] {
      SlashedEndsInWord(Comps(path));
    }
    if |normalized| > 1 && normalized[|normalized| - 1] == SLASH {
      normalized := normalized[..|normalized| - 1];
    }
  }

  lemma SlashedEndsInWord(cs: Path)
    requires cs != [] && IsPath(cs)
    ensures |Slashed(cs)| > 1 && Last(Slashed(cs)) != SLASH && Slashed(cs)[0] == SLASH
    ensures Slashed(cs)[|Slashed(cs)| - |Last(cs)| - 1] == SLASH
  {
    var w := Last(cs);
    assert Last(w) in w;
    if |cs| > 1 {
      SlashedEndsInWord(cs[..|cs| - 1]);
    }
  }

  /** Normalizing twice changes nothing, and the result names the same components. */
  lemma NormalizeIdempotent(p: Str)
    ensures Comps(Canon(Comps(p))) == Comps(p)
    ensures Canon(Comps(Canon(Comps(p)))) == Canon(Comps(p))
  {
    CompsOfCanon(Comps(p));
  }

  // ---------------------------------------------------------------- split_path

  ghost predicate IsLastSlash(text: Str, at: nat) {
    at < |text| && text[at] == SLASH && forall k | at < k < |text| :: text[k] != SLASH
  }

  /** The position of the last slash of a text that has one. */
  method LastSlash(text: Str) returns (at: nat)
    requires text != [] && text[0] == SLASH
    ensures IsLastSlash(text, at)
  {
    at := 0;
    var p := 0;
    while p < |text|
      invariant 0 <= p <= |text| && at < |text| && at <= p
      invariant text[at] == SLASH && forall k | at < k < p :: text[k] != SLASH
    {
      if text[p] == SLASH {
        at := p;
      }
      p := p + 1;
    }
  }

  /** `parent` spells all components but the last, `name` is the last one. */
  method SplitPath(path: Str) returns (parent: Str, name: Str)
    ensures parent == Canon(Parent(Comps(path)))
    ensures name == Name(Comps(path))
  {
    var normalized := NormalizePath(path);
    ghost var cs := Comps(path);
    if cs != [] {
      SlashedEndsInWord(cs);
    }
    if normalized == ROOT {
      return ROOT, [];
    }
    var lastSlash := LastSlash(normalized);
    ghost var front := Slashed(Parent(cs));
    assert normalized == front + [SLASH] + Last(cs);
    assert lastSlash == |front| by {
      assert forall k | |front| < k < |normalized| :: normalized[k] == Last(cs)[k - |front| - 1] && normalized[k] != SLASH;
    }
    assert normalized[|front| + 1..] == Last(cs);
    assert normalized[..lastSlash] == front;
    if Parent(cs) != [] {
      SlashedEndsInWord(Parent(cs));
    }
    name := normalized[lastSlash + 1..];
    parent := if lastSlash == 0 then ROOT else normalized[..lastSlash];
  }

  /** Joining what `SplitPath` returns gives the path back, up to spelling. */
  lemma SplitThenJoin(cs: Path)
    requires IsPath(cs) && cs != []
    ensures Comps(Canon(Parent(cs)) + [SLASH] + Name(cs)) == cs
  {
    hide Comps, Canon;
    assert IsComponent(Last(cs));
    CompsOfCanon(Parent(cs));
    CompsAfterSlash(Canon(Parent(cs)), Name(cs));
  }

  /** Cutting a path at a last slash drops its last component, or only a trailing slash. */
  lemma CompsAfterSlash(q: Str, w: Str)
    requires SLASH !in w
    ensures Comps(q + [SLASH] + w) == Comps(q) + if w == [] then [] else [w]
  {
    CompsSnoc(q, SLASH);
    if w == [] {
      assert q + [SLASH] + w == q + [SLASH];
    } else {
      CompsAppendWord(q + [SLASH], w);
    }
  }

  // ---------------------------------------------------------------- scanning a canonical path

  /** Where component `k` stands in the canonical text. */
  lemma WordAt(cs: Path, k: nat)
    requires IsPath(cs) && k < |cs|
    ensures var n, p := Slashed(cs), |Slashed(cs[..k])| + 1;
      && p + |cs[k]| <= |n| && n[p..p + |cs[k]|] == cs[k]
      && (k + 1 == |cs| ==> p + |cs[k]| == |n|)
      && (k + 1 < |cs| ==> p + |cs[k]| + 1 < |n| && n[p + |cs[k]|] == SLASH && |Slashed(cs[..k + 1])| == p + |cs[k]|)
  {
    hide Comps;
    var front, back := cs[..k + 1], cs[k + 1..];
    assert front[..k] == cs[..k] && Last(front) == cs[k];
    assert Slashed(front) == Slashed(cs[..k]) + [SLASH] + cs[k];
    assert cs == front + back;
    SlashedConcat(front, back);
    if back != [] {
      SlashedEndsInWord(back);
    } else {
      assert Slashed(back) == [];
    }
  }

  /** A component inside a text is where the scan to the next slash stops. */
  lemma ScanStops(n: Str, p: nat, w: Str, e: nat)
    requires IsComponent(w) && p + |w| <= |n| && n[p..p + |w|] == w
    requires p + |w| == |n| || n[p + |w|] == SLASH
    requires p <= e <= |n| && (e == |n| || n[e] == SLASH) && forall k | p <= k < e :: n[k] != SLASH
    ensures e == p + |w|
  {
    assert forall k | 0 <= k < |w| :: w[k] == n[p + k] && w[k] in w;
  }
}
