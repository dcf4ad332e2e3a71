/** What normalising a path means, on the texts themselves: how often it decodes, and what it rewrites. */
module PathMeaning {
  import opened Text
  import opened PathPolicy

  // ----- decoding -----

  /** A decoder that finds nothing to decode. */
  function Still(text: string): Option<string> { Some(text) }

  ghost predicate AtRest(decode: Decoder, text: string) { decode(text) == None || decode(text) == Some(text) }

  /** Each text is what the one before decodes to, and another. */
  ghost predicate Decodings(decode: Decoder, texts: seq<string>) {
    texts != [] && forall i :: 0 < i < |texts| ==> decode(texts[i - 1]) == Some(texts[i]) && texts[i] != texts[i - 1]
  }

  lemma {:induction false} DecodeAlong(decode: Decoder, texts: seq<string>, times: nat)
    requires Decodings(decode, texts) && |texts| <= times + 1
    requires |texts| <= times ==> AtRest(decode, texts[|texts| - 1])
    ensures DecodeTimes(decode, texts[0], times) == texts[|texts| - 1]
    decreases times
  {
    if |texts| > 1 {
      assert decode(texts[1 - 1]) == Some(texts[1]) && texts[1] != texts[1 - 1];
      var rest := texts[1..];
      forall i | 0 < i < |rest| ensures decode(rest[i - 1]) == Some(rest[i]) && rest[i] != rest[i - 1] {
        assert rest[i] == texts[i + 1] && rest[i - 1] == texts[i + 1 - 1];
      }
      DecodeAlong(decode, rest, times - 1);
    }
  }

  /** The texts a path is decoded to, up to where decoding comes to rest or to the third. */
  lemma DecodingsOf(decode: Decoder, raw: string) returns (texts: seq<string>)
    ensures Decodings(decode, texts) && texts[0] == (if raw == "" then "/" else raw)
    ensures |texts| == 4 || (|texts| < 4 && AtRest(decode, texts[|texts| - 1]))
  {
    texts := [if raw == "" then "/" else raw];
    for i := 0 to 3
      invariant Decodings(decode, texts) && texts[0] == if raw == "" then "/" else raw
      invariant |texts| == i + 1 || (|texts| < 4 && AtRest(decode, texts[|texts| - 1]))
    {
      var next := decode(texts[|texts| - 1]);
      if next.Some? && next.value != texts[|texts| - 1] { texts := texts + [next.value]; }
    }
  }

  /**
   * A path is normalised as the text that decoding comes to when it rests, or as the third decoding if it does not
   * rest before. So a segment that is encoded up to three times over is judged by what it stands for.
   */
  lemma NormalizedOfDecoded(decode: Decoder, raw: string, texts: seq<string>)
    requires Decodings(decode, texts) && texts[0] == if raw == "" then "/" else raw
    requires |texts| == 4 || (|texts| < 4 && AtRest(decode, texts[|texts| - 1]))
    ensures Normalized(decode, raw) == Normalized(Still, texts[|texts| - 1])
  {
    hide Walk, Split, FoldBackslashes, Render;
    var last := texts[|texts| - 1];
    DecodeAlong(decode, texts, 3);
    NormalIs(last);
  }

  /** The normal form of a text with nothing to decode. */
  function Plain(text: string): string {
    Render(Walk(Split(FoldBackslashes(text), '/')), EndsWithSlash(FoldBackslashes(text)))
  }

  lemma NormalIs(text: string)
    ensures Normalized(Still, text) == Plain(text)
  {
    assert forall t :: DecodeTimes(Still, t, 3) == t;
    if text == "" {
      assert FoldBackslashes("") == "" && FoldBackslashes("/") == "/";
      SplitNothing('/');
      SplitCons('/', "", '/');
      assert "/" == ['/'] + "" && [[]] + [""] == [""] + [""];
      WalkFromEmpty([""]);
      WalkToEmpty([]);
      assert [] + [""] == [""];
    }
  }

  // ----- rewriting -----

  lemma FoldConcat(u: string, v: string)
    ensures FoldBackslashes(u + v) == FoldBackslashes(u) + FoldBackslashes(v)
  {
  }

  lemma FoldOne()
    ensures FoldBackslashes("/") == "/" && FoldBackslashes("\\") == "/"
  {
  }

  lemma SegmentsAt(u: string, v: string)
    ensures Split(FoldBackslashes(u + "/" + v), '/') == Split(FoldBackslashes(u), '/') + Split(FoldBackslashes(v), '/')
    ensures FoldBackslashes(u + "/" + v) == FoldBackslashes(u) + "/" + FoldBackslashes(v)
  {
    FoldConcat(u + "/", v);
    FoldConcat(u, "/");
    FoldOne();
    SplitConcat(FoldBackslashes(u), FoldBackslashes(v), '/');
  }

  /** Texts that split up alike and agree on the last character are normalised alike. */
  lemma SamePlain(s: string, t: string)
    requires Walk(Split(FoldBackslashes(s), '/')) == Walk(Split(FoldBackslashes(t), '/'))
    requires EndsWithSlash(FoldBackslashes(s)) == EndsWithSlash(FoldBackslashes(t))
    ensures Normalized(Still, s) == Normalized(Still, t)
  {
    hide Walk, Split, FoldBackslashes, Render;
    NormalIs(s);
    NormalIs(t);
  }

  lemma EndsAlike(u: string, w: string, v: string)
    ensures EndsWithSlash(FoldBackslashes(u + "/" + v)) == EndsWithSlash(FoldBackslashes(w + "/" + v))
  {
    SegmentsAt(u, v);
    SegmentsAt(w, v);
  }

  lemma CleanSegmentIs(x: string)
    requires CleanSegment(x)
    ensures Split(FoldBackslashes(x), '/') == [x]
  {
    assert FoldBackslashes(x) == x;
    SplitJoin([x], '/');
  }

  lemma DotsAre()
    ensures Split(FoldBackslashes("."), '/') == ["."] && Split(FoldBackslashes(".."), '/') == [".."]
    ensures Split(FoldBackslashes(""), '/') == [""]
  {
    assert FoldBackslashes(".") == "." && FoldBackslashes("..") == ".." && FoldBackslashes("") == "";
    SplitJoin(["."], '/');
    SplitJoin([".."], '/');
    SplitNothing('/');
  }

  /** A backslash is a slash. */
  lemma BackslashIsSlash(u: string, v: string)
    ensures Normalized(Still, u + "\\" + v) == Normalized(Still, u + "/" + v)
  {
    hide Walk, Split, FoldBackslashes, Normalized;
    FoldConcat(u + "\\", v);
    FoldConcat(u, "\\");
    FoldConcat(u + "/", v);
    FoldConcat(u, "/");
    FoldOne();
    SamePlain(u + "\\" + v, u + "/" + v);
  }

  lemma Dropping(u: string, w: string, v: string)
    requires Walk(Split(FoldBackslashes(u), '/') + Split(FoldBackslashes(v), '/'))
          == Walk(Split(FoldBackslashes(w), '/') + Split(FoldBackslashes(v), '/'))
    ensures Normalized(Still, u + "/" + v) == Normalized(Still, w + "/" + v)
  {
    hide Walk, Split, FoldBackslashes, Normalized;
    SegmentsAt(u, v);
    SegmentsAt(w, v);
    EndsAlike(u, w, v);
    SamePlain(u + "/" + v, w + "/" + v);
  }

  /** Wherever they stand, an empty segment and "." vanish, and ".." takes the segment before it along. */
  lemma DotsVanish(u: string, x: string, v: string)
    requires CleanSegment(x)
    ensures Normalized(Still, u + "//" + v) == Normalized(Still, u + "/" + v)
    ensures Normalized(Still, u + "/./" + v) == Normalized(Still, u + "/" + v)
    ensures Normalized(Still, u + "/" + x + "/../" + v) == Normalized(Still, u + "/" + v)
  {
    hide Walk, Split, FoldBackslashes, Normalized;
    var p, q := Split(FoldBackslashes(u), '/'), Split(FoldBackslashes(v), '/');
    DotSegmentsResolve(p, x, q);
    DotsAre();
    CleanSegmentIs(x);
    SegmentsAt(u, "");
    Dropping(u + "/" + "", u, v);
    assert (u + "/" + "") + "/" + v == u + "//" + v;
    SegmentsAt(u, ".");
    Dropping(u + "/" + ".", u, v);
    assert (u + "/" + ".") + "/" + v == u + "/./" + v;
    SegmentsAt(u, x);
    SegmentsAt(u + "/" + x, "..");
    assert p + [x] + [".."] == p + [x, ".."];
    Dropping(u + "/" + x + "/" + "..", u, v);
    assert (u + "/" + x + "/" + "..") + "/" + v == u + "/" + x + "/../" + v;
  }

  /** At the root ".." leads nowhere, and a path may as well begin without a slash. */
  lemma RootStays(v: string)
    ensures Normalized(Still, "/../" + v) == Normalized(Still, "/" + v)
    ensures Normalized(Still, "/" + v) == Normalized(Still, v)
    ensures Normalized(Still, "/..") == "/" && Normalized(Still, "") == "/"
  {
    hide Walk, Split, FoldBackslashes, Normalized;
    var q := Split(FoldBackslashes(v), '/');
    DotsAre();
    NothingIsRoot();
    WalkFromEmpty(q);
    WalkFromEmpty([".."]);
    WalkFromEmpty([".."] + q);
    DotSegmentsResolve([], "x", q);
    SegmentsAt("", "..");
    assert [""] + ([".."] + q) == [""] + [".."] + q;
    Dropping("" + "/" + "..", "", v);
    assert ("" + "/" + "..") + "/" + v == "/../" + v && "" + "/" + v == "/" + v;
    SegmentsAt("", v);
    FoldOne();
    assert "" + "/" + ".." == "/..";
    UpFromRoot();
    if v == "" {
      assert "/" + v == "/";
    } else {
      FoldEnds(v);
      SamePlain("/" + v, v);
    }
  }

  lemma FoldEnds(v: string)
    requires v != ""
    ensures EndsWithSlash(FoldBackslashes("/" + v)) == EndsWithSlash(FoldBackslashes(v))
  {
  }

  lemma NothingIsRoot()
    ensures Normalized(Still, "") == "/" && Normalized(Still, "/") == "/"
  {
    NormalIs("");
    NormalIs("/");
    DotsAre();
    WalkToEmpty([]);
    assert [] + [""] == [""];
    assert Normalized(Still, "") == Normalized(Still, "/");
  }

  lemma UpFromRoot()
    ensures Normalized(Still, "/..") == "/"
  {
    NormalIs("/..");
    assert FoldBackslashes("/..") == "/..";
    DotsAre();
    SegmentsAt("", "..");
    assert "" + "/" + ".." == "/..";
    WalkFromEmpty([".."]);
    WalkSnoc([], "..");
    assert [] + [".."] == [".."] && [""] + [".."] == ["", ".."];
  }

  /** At the end of a path that does not end in a slash the same holds without one. */
  lemma DotsVanishAtTheEnd(u: string, x: string)
    requires CleanSegment(x) && !EndsWithSlash(u) && !(u != "" && u[|u| - 1] == '\\')
    ensures Normalized(Still, u + "/.") == Normalized(Still, u)
    ensures Normalized(Still, u + "/" + x + "/..") == Normalized(Still, u)
  {
    hide Walk, Split, Normalized;
    var p := Split(FoldBackslashes(u), '/');
    DotsAre();
    CleanSegmentIs(x);
    DotSegmentsResolve(p, x, []);
    assert p + ["."] + [] == p + ["."] && p + [x, ".."] + [] == p + [x, ".."] && p + [] == p;
    SegmentsAt(u, ".");
    assert u + "/" + "." == u + "/.";
    SegmentsAt(u, x);
    SegmentsAt(u + "/" + x, "..");
    assert u + "/" + x + "/" + ".." == u + "/" + x + "/..";
    assert p + [x] + [".."] == p + [x, ".."];
    NoSlashAtEnd(u, u + "/", ".");
    NoSlashAtEnd(u, u + "/" + x + "/.", ".");
    assert (u + "/") + "." == u + "/." && (u + "/" + x + "/.") + "." == u + "/" + x + "/..";
    SamePlain(u + "/.", u);
    SamePlain(u + "/" + x + "/..", u);
  }

  lemma NoSlashAtEnd(u: string, front: string, dot: string)
    requires !EndsWithSlash(u) && !(u != "" && u[|u| - 1] == '\\') && dot == "."
    ensures !EndsWithSlash(FoldBackslashes(u)) && !EndsWithSlash(FoldBackslashes(front + dot))
  {
    FoldConcat(front, dot);
    assert FoldBackslashes(dot) == ".";
  }

  /** The path spells these segments, each behind a slash, and may end in one more. */
  ghost predicate Spells(path: string, out: Segments) {
    path == "/" + Join(out, '/') || (out != [] && path == "/" + Join(out, '/') + "/")
  }

  /** A path of clean segments is its own normal form: the laws above leave every path at one of these. */
  lemma CleanPathStays(path: string, out: Segments)
    requires Clean(out) && Spells(path, out)
    ensures Normalized(Still, path) == path
  {
    hide Walk, Split, Normalized, Join;
    var slash := out != [] && path == "/" + Join(out, '/') + "/";
    assert path + "" == path;
    assert path == Render(out, slash);
    RenderIsNormal(Still, out, slash);
  }

  /** Whatever the decoder, the result spells clean segments: no encoded dot segment that decoding uncovers survives. */
  lemma NormalizedSpells(decode: Decoder, raw: string) returns (out: Segments)
    ensures Clean(out) && Spells(Normalized(decode, raw), out)
  {
    hide Walk, Split, Join;
    NormalizedIsClean(decode, raw);
    var text := Decoded(decode, raw);
    out := Walk(Split(text, '/'));
    assert Normalized(decode, raw) + "" == Normalized(decode, raw);
    assert "/" + Join(out, '/') + "" == "/" + Join(out, '/');
  }

  /** Matching on the normal forms as texts is matching on the segments they spell. */
  lemma MatchIsOnSpelledSegments(decode: Decoder, request: string, prefix: string, a: Segments, b: Segments)
    requires Clean(a) && Clean(b) && Spells(Normalized(decode, request), a) && Spells(Normalized(decode, prefix), b)
    ensures PathPrefixMatches(Normalized(decode, request), Normalized(decode, prefix)) <==> b <= a
  {
    hide Walk, Split, Join, Normalized, PathPrefixMatches, Clean;
    var r, p := Normalized(decode, request), Normalized(decode, prefix);
    var ta, tb := a != [] && r == "/" + Join(a, '/') + "/", b != [] && p == "/" + Join(b, '/') + "/";
    assert ("/" + Join(a, '/')) + "" == "/" + Join(a, '/') && ("/" + Join(b, '/')) + "" == "/" + Join(b, '/');
    assert r == Render(a, ta) && p == Render(b, tb);
    MatchIsSegmentPrefix(a, ta, b, tb);
  }
}
