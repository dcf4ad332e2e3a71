/** Normalising request paths and matching them against allowlist prefixes on segment boundaries. */
module PathPolicy {
  import opened Text

  type Segments = seq<string>

  /** Percent-decoding; `None` stands for a malformed escape. */
  type Decoder = string -> Option<string>

  function DecodeTimes(decode: Decoder, text: string, times: nat): string
    decreases times
  {
    if times == 0 then text
    else
      match decode(text)
      case None => text
      case Some(next) => if next == text then text else DecodeTimes(decode, next, times - 1)
  }

  function FoldBackslashes(text: string): (folded: string)
    ensures |folded| == |text|
    ensures '\\' !in folded
  {
    seq(|text|, i requires 0 <= i < |text| => if text[i] == '\\' then '/' else text[i])
  }

  /** One step of the segment walk: empty and "." segments vanish, ".." takes the last one back. */
  function Step(out: Segments, segment: string): Segments {
    if segment == "" || segment == "." then out
    else if segment == ".." then (if out == [] then [] else out[..|out| - 1])
    else out + [segment]
  }

  function Walk(segments: Segments): Segments {
    if segments == [] then [] else Step(Walk(segments[..|segments| - 1]), segments[|segments| - 1])
  }

  /** A path as text: a leading slash, the segments, and a trailing slash if asked for and there is a segment. */
  function Render(out: Segments, slash: bool): string {
    "/" + Join(out, '/') + if slash && out != [] then "/" else ""
  }

  predicate EndsWithSlash(text: string) { text != "" && text[|text| - 1] == '/' }

  function Decoded(decode: Decoder, raw: string): string {
    FoldBackslashes(DecodeTimes(decode, if raw == "" then "/" else raw, 3))
  }

  function Normalized(decode: Decoder, raw: string): string {
    var text := Decoded(decode, raw);
    Render(Walk(Split(text, '/')), EndsWithSlash(text))
  }

  method NormalizePathForMatch(decode: Decoder, raw: string) returns (path: string)
    ensures path == Normalized(decode, raw)
  {
    var decoded := if raw == "" then "/" else raw;
    ghost var start := decoded;
    var done := false;
    for i := 0 to 3
      invariant DecodeTimes(decode, start, 3) == if done then decoded else DecodeTimes(decode, decoded, 3 - i)
    {
      if done { continue; }
      var next := decode(decoded);
      if next.None? || next.value == decoded { done := true; } else { decoded := next.value; }
    }
    decoded := FoldBackslashes(decoded);
    var segments := Split(decoded, '/');
    var out: Segments := [];
    for i := 0 to |segments|
      invariant out == Walk(segments[..i])
    {
      var segment := segments[i];
      assert segments[..i + 1][..i] == segments[..i];
      if segment == "" || segment == "." { continue; }
      if segment == ".." {
        if out != [] { out := out[..|out| - 1]; }
        continue;
      }
      out := out + [segment];
    }
    assert segments[..|segments|] == segments;
    path := Render(out, EndsWithSlash(decoded));
  }

  /** Segment-wise prefix match on the text of two paths. */
  predicate PathPrefixMatches(request: string, prefix: string) {
    var p := if EndsWithSlash(prefix) then prefix[..|prefix| - 1] else prefix;
    p == "" || p == "/" || request == p || p + "/" <= request
  }

  // ----- normal paths -----

  ghost predicate CleanSegment(segment: string) {
    segment != "" && segment != "." && segment != ".." && '/' !in segment && '\\' !in segment
  }

  ghost predicate Clean(out: Segments) { forall i :: 0 <= i < |out| ==> CleanSegment(out[i]) }

  lemma {:induction false} WalkIsClean(segments: Segments)
    requires forall s :: s in segments ==> '/' !in s && '\\' !in s
    ensures Clean(Walk(segments))
  {
    if segments != [] {
      var init, last := segments[..|segments| - 1], segments[|segments| - 1];
      assert segments == init + [last];
      assert last in segments;
      WalkIsClean(init);
    }
  }

  lemma {:induction false} SplitKeepsOut(text: string, sep: char, c: char)
    requires c !in text
    ensures forall p :: p in Split(text, sep) ==> c !in p
  {
    if text != "" {
      assert text == [text[0]] + text[1..];
      SplitKeepsOut(text[1..], sep, c);
      assert Split(text[1..], sep)[0] in Split(text[1..], sep);
    }
  }

  /** Every normalised path is the text of clean segments: no empty, "." or ".." segment survives, encoded or not. */
  lemma NormalizedIsClean(decode: Decoder, raw: string)
    ensures
      var text := Decoded(decode, raw);
      Clean(Walk(Split(text, '/'))) && Normalized(decode, raw) == Render(Walk(Split(text, '/')), EndsWithSlash(text))
  {
    SplitKeepsOut(Decoded(decode, raw), '/', '\\');
    WalkIsClean(Split(Decoded(decode, raw), '/'));
  }

  lemma {:induction false} WalkOfClean(out: Segments)
    requires Clean(out)
    ensures Walk(out) == out
  {
    if out != [] {
      WalkOfClean(out[..|out| - 1]);
      assert CleanSegment(out[|out| - 1]);
      assert out == out[..|out| - 1] + [out[|out| - 1]];
    }
  }

  lemma {:induction false} WalkGoesOn(u: Segments, w: Segments, v: Segments)
    requires Walk(u) == Walk(w)
    ensures Walk(u + v) == Walk(w + v)
  {
    hide *;
    if v == [] {
      assert u + v == u && w + v == w;
    } else {
      var init, last := v[..|v| - 1], v[|v| - 1];
      WalkGoesOn(u, w, init);
      WalkSnoc(u + init, last);
      WalkSnoc(w + init, last);
      assert v == init + [last];
      assert u + v == u + init + [last] && w + v == w + init + [last];
    }
  }

  lemma WalkSnoc(u: Segments, segment: string)
    ensures Walk(u + [segment]) == Step(Walk(u), segment)
  {
    assert (u + [segment])[..|u|] == u;
  }

  /**
   * What ".." and "." mean, wherever they stand: a ".." takes back the segment before it, at the root it does
   * nothing, and "." and empty segments do nothing. With `WalkOfClean` these laws leave no other walk.
   */
  lemma DotSegmentsResolve(u: Segments, x: string, v: Segments)
    requires CleanSegment(x)
    ensures Walk(u + [x, ".."] + v) == Walk(u + v)
    ensures Walk([".."] + v) == Walk(v)
    ensures Walk(u + ["."] + v) == Walk(u + v) && Walk(u + [""] + v) == Walk(u + v)
  {
    WalkSnoc(u, x);
    WalkSnoc(u + [x], "..");
    assert u + [x] + [".."] == u + [x, ".."];
    WalkGoesOn(u + [x, ".."], u, v);
    WalkSnoc([], "..");
    assert [] + [".."] == [".."] && [] + v == v;
    WalkGoesOn([".."], [], v);
    WalkSnoc(u, ".");
    WalkGoesOn(u + ["."], u, v);
    WalkSnoc(u, "");
    WalkGoesOn(u + [""], u, v);
  }

  lemma {:induction false} WalkFromEmpty(out: Segments)
    ensures Walk([""] + out) == Walk(out)
  {
    if out == [] {
      assert [""] + [] == [""] && [""][..0] == [];
    } else {
      var all := [""] + out;
      WalkFromEmpty(out[..|out| - 1]);
      assert all[..|all| - 1] == [""] + out[..|out| - 1];
    }
  }

  lemma WalkToEmpty(out: Segments)
    ensures Walk(out + [""]) == Walk(out)
  {
    assert (out + [""])[..|out|] == out;
  }

  /** The text of clean segments splits into an empty segment, the segments, and a last empty one for the slash. */
  lemma SplitOfRender(out: Segments, slash: bool)
    requires Clean(out) && out != []
    ensures Split(Render(out, slash), '/') == [""] + out + if slash then [""] else []
    ensures EndsWithSlash(Render(out, slash)) <==> slash
  {
    forall p | p in out ensures '/' !in p { var i :| 0 <= i < |out| && out[i] == p; assert CleanSegment(out[i]); }
    SplitJoin(out, '/');
    var body := Join(out, '/');
    SplitConcat("", body, '/');
    assert "" + ['/'] + body == "/" + body;
    JoinEndsInSegment(out);
    if slash {
      SplitConcat("/" + body, "", '/');
      assert "/" + body + ['/'] + "" == "/" + body + "/";
    } else {
      assert "/" + body + "" == "/" + body;
    }
  }

  lemma {:induction false} JoinEndsInSegment(out: Segments)
    requires Clean(out) && out != []
    ensures Join(out, '/') != "" && Join(out, '/')[|Join(out, '/')| - 1] != '/' && '\\' !in Join(out, '/')
  {
    assert CleanSegment(out[0]);
    if |out| > 1 { JoinEndsInSegment(out[1..]); }
  }

  /** Normalising a normal path with nothing left to decode changes nothing. */
  lemma NormalizeIsIdempotent(decode: Decoder, raw: string)
    requires decode(Normalized(decode, raw)) in {None, Some(Normalized(decode, raw))}
    ensures Normalized(decode, Normalized(decode, raw)) == Normalized(decode, raw)
  {
    NormalizedIsClean(decode, raw);
    var text := Decoded(decode, raw);
    var out, slash := Walk(Split(text, '/')), EndsWithSlash(text);
    RenderIsNormal(decode, out, slash);
  }

  lemma RenderIsNormal(decode: Decoder, out: Segments, slash: bool)
    requires Clean(out) && decode(Render(out, slash)) in {None, Some(Render(out, slash))}
    ensures Normalized(decode, Render(out, slash)) == Render(out, slash)
  {
    var path := Render(out, slash);
    assert DecodeTimes(decode, path, 3) == path;
    if out == [] {
      assert path == "/";
      SplitConcat("", "", '/');
      assert "" + ['/'] + "" == "/";
      assert FoldBackslashes(path) == path;
      assert Split("/", '/') == [""] + [""];
      WalkToEmpty([""]);
      WalkToEmpty([]);
      assert [] + [""] == [""];
    } else {
      JoinEndsInSegment(out);
      assert '\\' !in path;
      assert FoldBackslashes(path) == path;
      SplitOfRender(out, slash);
      WalkOfClean(out);
      WalkFromEmpty(out);
      WalkToEmpty([""] + out);
      assert [""] + out + [] == [""] + out;
    }
  }

  // ----- matching is on whole segments -----

  lemma PrefixText(b: Segments, tb: bool)
    requires Clean(b) && b != []
    ensures
      var prefix := Render(b, tb);
      (if EndsWithSlash(prefix) then prefix[..|prefix| - 1] else prefix) == "/" + Join(b, '/')
  {
    SplitOfRender(b, tb);
    var body := "/" + Join(b, '/');
    assert body + "" == body;
    assert (body + "/")[..|body + "/"| - 1] == body;
  }

  lemma {:induction false} JoinConcat(b: Segments, rest: Segments)
    requires b != [] && rest != []
    ensures Join(b + rest, '/') == Join(b, '/') + "/" + Join(rest, '/')
  {
    if |b| == 1 {
      assert b + rest == [b[0]] + rest && ([b[0]] + rest)[1..] == rest;
    } else {
      JoinConcat(b[1..], rest);
      assert (b + rest)[1..] == b[1..] + rest;
      var x, y, z := b[0], Join(b[1..], '/'), Join(rest, '/');
      assert x + ['/'] + (y + "/" + z) == (x + ['/'] + y) + "/" + z;
    }
  }

  /** The text begins with the prefix and a slash, or is the prefix, only when the segments begin with its segments. */
  lemma MatchMeansPrefix(a: Segments, ta: bool, b: Segments)
    requires Clean(a) && Clean(b) && b != []
    requires Render(a, ta) == "/" + Join(b, '/') || "/" + Join(b, '/') + "/" <= Render(a, ta)
    ensures b <= a
  {
    hide Join, Split, Clean;
    var p, request := "/" + Join(b, '/'), Render(a, ta);
    SplitOfRender(b, false);
    assert p + "" == p;
    assert Split(p, '/') == [""] + b + [] == [""] + b;
    RenderOfNothing(ta);
    JoinEndsInSegment(b);
    if a != [] {
      SplitOfRender(a, ta);
      var tail := if ta then [""] else [];
      if request == p {
        SameUpToEmpty(a, tail, b, []);
      } else {
        var rest := request[|p| + 1..];
        assert request == p + ['/'] + rest;
        SplitConcat(p, rest, '/');
        assert [""] + b + Split(rest, '/') == [""] + (b + Split(rest, '/'));
        assert [""] + a + tail == [""] + (a + tail);
        assert ([""] + (a + tail))[1..] == a + tail && ([""] + (b + Split(rest, '/')))[1..] == b + Split(rest, '/');
        SameUpToEmpty(a, tail, b, Split(rest, '/'));
      }
    }
  }

  lemma RenderOfNothing(slash: bool)
    ensures Render([], slash) == "/"
  {
  }

  lemma SameUpToEmpty(a: Segments, tail: Segments, b: Segments, more: Segments)
    requires Clean(b) && tail in {[], [""]}
    requires a + tail == b + more || [""] + a + tail == [""] + b
    ensures b <= a
  {
    if a + tail != b + more {
      assert ([""] + a + tail)[1..] == a + tail && ([""] + b)[1..] == b;
      assert a + tail == b + [];
    }
    assert |b| <= |a + tail| && b == (a + tail)[..|b|];
    if b != [] {
      var i := |b| - 1;
      assert CleanSegment(b[i]) && b[i] == (a + tail)[i];
    }
    assert (a + tail)[..|b|] == a[..|b|];
  }

  lemma PrefixMeansMatch(a: Segments, ta: bool, b: Segments)
    requires Clean(a) && b != [] && b <= a
    ensures Render(a, ta) == "/" + Join(b, '/') || "/" + Join(b, '/') + "/" <= Render(a, ta)
  {
    var p, request := "/" + Join(b, '/'), Render(a, ta);
    if a == b {
      if ta { assert request == p + "/"; } else { assert request == p + "" == p; }
    } else {
      var rest := a[|b|..];
      assert a == b + rest;
      JoinConcat(b, rest);
      var end := if ta then "/" else "";
      assert request == "/" + (Join(b, '/') + "/" + Join(rest, '/')) + end;
      assert request == (p + "/") + (Join(rest, '/') + end);
    }
  }

  /** Matching the texts of two normal paths is matching their segment lists, whatever the trailing slashes. */
  lemma MatchIsSegmentPrefix(a: Segments, ta: bool, b: Segments, tb: bool)
    requires Clean(a) && Clean(b)
    ensures PathPrefixMatches(Render(a, ta), Render(b, tb)) <==> b <= a
  {
    if b == [] {
      assert Render(b, tb) == "/";
      assert "/"[..0] == "";
    } else {
      PrefixText(b, tb);
      JoinEndsInSegment(b);
      if b <= a { PrefixMeansMatch(a, ta, b); }
      if PathPrefixMatches(Render(a, ta), Render(b, tb)) { MatchMeansPrefix(a, ta, b); }
    }
  }
}
