/** Splitting and joining on a one-element separator, shared by every module that reads text. */
module Text {

  datatype Option<+T> = None | Some(value: T)

  datatype Result<+T, +E> = Ok(value: T) | Err(error: E)

  /** JavaScript's `split` on a one-element separator: never empty. */
  function Split<T(==)>(s: seq<T>, sep: T): (parts: seq<seq<T>>)
    ensures |parts| >= 1
    ensures forall p :: p in parts ==> sep !in p
  {
    if s == [] then [[]]
    else
      var rest := Split(s[1..], sep);
      if s[0] == sep then [[]] + rest
      else
        assert sep !in rest[0];
        [[s[0]] + rest[0]] + rest[1..]
  }

  /** JavaScript's `join`. */
  function Join<T>(parts: seq<seq<T>>, sep: T): seq<T> {
    if parts == [] then []
    else if |parts| == 1 then parts[0]
    else parts[0] + [sep] + Join(parts[1..], sep)
  }

  lemma {:induction false} JoinSplit<T>(s: seq<T>, sep: T)
    ensures Join(Split(s, sep), sep) == s
  {
    if s != [] {
      JoinSplit(s[1..], sep);
      var rest := Split(s[1..], sep);
      if s[0] == sep {
        assert ([[]] + rest)[1..] == rest;
      } else {
        var parts := [[s[0]] + rest[0]] + rest[1..];
        assert parts[1..] == rest[1..];
        if |rest| == 1 {
          assert Join(parts, sep) == [s[0]] + rest[0];
        } else {
          assert Join(parts, sep) == [s[0]] + (rest[0] + [sep] + Join(rest[1..], sep));
        }
      }
    }
  }

  lemma {:induction false} SplitPrefix<T>(p: seq<T>, s: seq<T>, sep: T)
    requires sep !in p
    ensures Split(p + s, sep) == [p + Split(s, sep)[0]] + Split(s, sep)[1..]
  {
    if p == [] {
      assert p + s == s;
      assert p + Split(s, sep)[0] == Split(s, sep)[0];
    } else {
      SplitPrefix(p[1..], s, sep);
      assert (p + s)[1..] == p[1..] + s && (p + s)[0] == p[0];
      var tail := Split(s, sep);
      assert Split((p + s)[1..], sep) == [p[1..] + tail[0]] + tail[1..];
      assert [p[0]] + (p[1..] + tail[0]) == p + tail[0];
    }
  }

  lemma {:induction false} SplitJoin<T>(parts: seq<seq<T>>, sep: T)
    requires |parts| >= 1
    requires forall p :: p in parts ==> sep !in p
    ensures Split(Join(parts, sep), sep) == parts
  {
    if |parts| == 1 {
      SplitPrefix(parts[0], [], sep);
      assert parts[0] + [] == parts[0];
    } else {
      SplitJoin(parts[1..], sep);
      var tail := Join(parts[1..], sep);
      SplitPrefix(parts[0], [sep] + tail, sep);
      assert ([sep] + tail)[1..] == tail;
      assert Split([sep] + tail, sep) == [[]] + parts[1..];
      assert parts[0] + [sep] + tail == parts[0] + ([sep] + tail);
      assert parts[0] + [] == parts[0];
    }
  }

  lemma {:induction false} SplitConcat<T>(u: seq<T>, v: seq<T>, sep: T)
    ensures Split(u + [sep] + v, sep) == Split(u, sep) + Split(v, sep)
  {
    hide Split;
    var all := u + [sep] + v;
    if u == [] {
      assert all == [sep] + v;
      SplitCons(sep, v, sep);
      SplitNothing(sep);
    } else {
      var rest := u[1..];
      SplitConcat(rest, v, sep);
      assert u == [u[0]] + rest && all == [u[0]] + (rest + [sep] + v);
      SplitCons(u[0], rest, sep);
      SplitCons(u[0], rest + [sep] + v, sep);
      Longer(u[0], Split(rest, sep), Split(v, sep));
    }
  }

  lemma Longer<T>(x: T, head: seq<seq<T>>, tail: seq<seq<T>>)
    requires head != []
    ensures [[]] + (head + tail) == ([[]] + head) + tail
    ensures [[x] + (head + tail)[0]] + (head + tail)[1..] == ([[x] + head[0]] + head[1..]) + tail
  {
  }

  lemma SplitNothing<T>(sep: T)
    ensures Split([], sep) == [[]]
  {
  }

  lemma SplitCons<T>(x: T, s: seq<T>, sep: T)
    ensures Split([x] + s, sep) == if x == sep then [[]] + Split(s, sep)
        else [[x] + Split(s, sep)[0]] + Split(s, sep)[1..]
  {
    assert ([x] + s)[1..] == s;
  }

  /** The last part is empty only behind a separator. */
  lemma {:induction false} LastPart<T>(s: seq<T>, sep: T)
    requires s != [] && s[|s| - 1] != sep
    ensures Split(s, sep)[|Split(s, sep)| - 1] != []
  {
    if |s| > 1 { LastPart(s[1..], sep); } else { assert s[1..] == []; }
  }

  /** Splitting loses nothing: two texts with the same parts are the same text. */
  lemma SplitInjective<T>(s: seq<T>, t: seq<T>, sep: T)
    requires Split(s, sep) == Split(t, sep)
    ensures s == t
  {
    JoinSplit(s, sep);
    JoinSplit(t, sep);
  }

  lemma Pieces<T>(x: T, xs: seq<T>, ys: seq<T>)
    ensures ([x] + xs + ys)[0] == x && ([x] + xs + ys)[1..] == xs + ys
    ensures (xs + ys)[..|xs|] == xs && (xs + ys)[|xs|..] == ys
  {
  }

  lemma HasElement<T(!new)>(xs: seq<T>)
    requires xs != []
    ensures exists x :: x in xs
  {
    assert xs[0] in xs;
  }
}
