/** The edit script of a unified diff: the LCS table, the greedy walk over it, and why the walk is optimal. */
module LineDiff {

  datatype Kind = Keep | Delete | Add

  datatype Op = Op(kind: Kind, text: string)

  /** The lines a script takes from the old text. */
  function OldLines(ops: seq<Op>): seq<string> {
    if ops == [] then []
    else if ops[0].kind.Add? then OldLines(ops[1..])
    else [ops[0].text] + OldLines(ops[1..])
  }

  /** The lines a script leaves in the new text. */
  function NewLines(ops: seq<Op>): seq<string> {
    if ops == [] then []
    else if ops[0].kind.Delete? then NewLines(ops[1..])
    else [ops[0].text] + NewLines(ops[1..])
  }

  function Kept(ops: seq<Op>): seq<string> {
    if ops == [] then []
    else if ops[0].kind.Keep? then [ops[0].text] + Kept(ops[1..])
    else Kept(ops[1..])
  }

  predicate Unchanged(ops: seq<Op>) { forall i :: 0 <= i < |ops| ==> ops[i].kind.Keep? }

  function Max(x: nat, y: nat): nat { if x >= y then x else y }

  /** One cell of the table, for the suffixes a and b. */
  function Lcs(a: seq<string>, b: seq<string>): nat
    decreases |a| + |b|
  {
    if a == [] || b == [] then 0
    else if a[0] == b[0] then Lcs(a[1..], b[1..]) + 1
    else Max(Lcs(a[1..], b), Lcs(a, b[1..]))
  }

  /** The greedy forward walk: on a tie it deletes before it adds. */
  function Script(a: seq<string>, b: seq<string>): seq<Op>
    decreases |a| + |b|
  {
    if a == [] && b == [] then []
    else if b == [] then [Op(Delete, a[0])] + Script(a[1..], b)
    else if a == [] then [Op(Add, b[0])] + Script(a, b[1..])
    else if a[0] == b[0] then [Op(Keep, a[0])] + Script(a[1..], b[1..])
    else if Lcs(a[1..], b) >= Lcs(a, b[1..]) then [Op(Delete, a[0])] + Script(a[1..], b)
    else [Op(Add, b[0])] + Script(a, b[1..])
  }

  // ----- the code's own form -----

  ghost predicate IsTable(lcs: array2<nat>, a: seq<string>, b: seq<string>)
    reads lcs
  {
    && lcs.Length0 == |a| + 1 && lcs.Length1 == |b| + 1
    && forall i, j :: 0 <= i <= |a| && 0 <= j <= |b| ==> lcs[i, j] == Lcs(a[i..], b[j..])
  }

  method FillTable(a: seq<string>, b: seq<string>) returns (lcs: array2<nat>)
    ensures IsTable(lcs, a, b)
  {
    var n, m := |a|, |b|;
    lcs := new nat[n + 1, m + 1]((i, j) => 0);
    var i := n;
    while i > 0
      invariant 0 <= i <= n
      invariant forall k, j :: 0 <= k <= n && 0 <= j <= m && (k >= i || j == m) ==> lcs[k, j] == Lcs(a[k..], b[j..])
    {
      i := i - 1;
      var j := m;
      while j > 0
        invariant 0 <= j <= m
        invariant forall k, l :: 0 <= k <= n && 0 <= l <= m && (k > i || l == m || (k == i && l >= j)) ==>
                    lcs[k, l] == Lcs(a[k..], b[l..])
      {
        j := j - 1;
        assert a[i..][1..] == a[i + 1..] && b[j..][1..] == b[j + 1..];
        lcs[i, j] := if a[i] == b[j] then lcs[i + 1, j + 1] + 1 else Max(lcs[i + 1, j], lcs[i, j + 1]);
      }
    }
  }

  method Walk(a: seq<string>, b: seq<string>) returns (ops: seq<Op>)
    ensures ops == Script(a, b)
  {
    var lcs := FillTable(a, b);
    var n, m := |a|, |b|;
    ops := [];
    var i, j := 0, 0;
    while i < n && j < m
      invariant 0 <= i <= n && 0 <= j <= m
      invariant IsTable(lcs, a, b)
      invariant Ahead(ops, a, b, i, j)
      decreases n - i + m - j
    {
      AheadStep(ops, a, b, i, j);
      if a[i] == b[j] {
        ops := ops + [Op(Keep, a[i])];
        i, j := i + 1, j + 1;
      } else if lcs[i + 1, j] >= lcs[i, j + 1] {
        ops := ops + [Op(Delete, a[i])];
        i := i + 1;
      } else {
        ops := ops + [Op(Add, b[j])];
        j := j + 1;
      }
    }
    while i < n
      invariant 0 <= i <= n && 0 <= j <= m && (i < n ==> j == m)
      invariant Ahead(ops, a, b, i, j)
    {
      AheadStep(ops, a, b, i, j);
      ops := ops + [Op(Delete, a[i])];
      i := i + 1;
    }
    while j < m
      invariant i == n && 0 <= j <= m
      invariant Ahead(ops, a, b, i, j)
    {
      AheadStep(ops, a, b, i, j);
      ops := ops + [Op(Add, b[j])];
      j := j + 1;
    }
  }

  /** The walk stands at (i, j) with `ops` behind it. */
  ghost predicate Ahead(ops: seq<Op>, a: seq<string>, b: seq<string>, i: nat, j: nat)
    requires i <= |a| && j <= |b|
  {
    ops + Script(a[i..], b[j..]) == Script(a, b)
  }

  lemma AheadStep(ops: seq<Op>, a: seq<string>, b: seq<string>, i: nat, j: nat)
    requires i <= |a| && j <= |b| && (i < |a| || j < |b|)
    requires Ahead(ops, a, b, i, j)
    ensures
      if i == |a| then Ahead(ops + [Op(Add, b[j])], a, b, i, j + 1)
      else if j == |b| then Ahead(ops + [Op(Delete, a[i])], a, b, i + 1, j)
      else if a[i] == b[j] then Ahead(ops + [Op(Keep, a[i])], a, b, i + 1, j + 1)
      else if Lcs(a[i + 1..], b[j..]) >= Lcs(a[i..], b[j + 1..]) then Ahead(ops + [Op(Delete, a[i])], a, b, i + 1, j)
      else Ahead(ops + [Op(Add, b[j])], a, b, i, j + 1)
  {
    if i < |a| { assert a[i..][1..] == a[i + 1..]; }
    if j < |b| { assert b[j..][1..] == b[j + 1..]; }
    var rest := Script(a[i..], b[j..]);
    assert rest == [rest[0]] + rest[1..];
    assert ops + rest == (ops + [rest[0]]) + rest[1..];
  }

  // ----- the script is correct -----

  lemma {:induction false} ScriptIsFaithful(a: seq<string>, b: seq<string>)
    ensures OldLines(Script(a, b)) == a && NewLines(Script(a, b)) == b
    ensures |Kept(Script(a, b))| == Lcs(a, b)
    decreases |a| + |b|
  {
    var ops := Script(a, b);
    if a == [] && b == [] {
    } else if b == [] {
      ScriptIsFaithful(a[1..], b);
      assert ops[1..] == Script(a[1..], b);
    } else if a == [] {
      ScriptIsFaithful(a, b[1..]);
      assert ops[1..] == Script(a, b[1..]);
    } else if a[0] == b[0] {
      ScriptIsFaithful(a[1..], b[1..]);
      assert ops[1..] == Script(a[1..], b[1..]);
    } else if Lcs(a[1..], b) >= Lcs(a, b[1..]) {
      ScriptIsFaithful(a[1..], b);
      assert ops[1..] == Script(a[1..], b);
    } else {
      ScriptIsFaithful(a, b[1..]);
      assert ops[1..] == Script(a, b[1..]);
    }
  }

  /** Two texts are equal exactly when their script changes nothing. */
  lemma {:induction false} UnchangedIffEqual(a: seq<string>, b: seq<string>)
    ensures Unchanged(Script(a, b)) <==> a == b
    decreases |a| + |b|
  {
    var ops := Script(a, b);
    if a == b {
      if a != [] {
        UnchangedIffEqual(a[1..], b[1..]);
        forall i | 0 <= i < |ops| ensures ops[i].kind.Keep? {
          if i > 0 { assert ops[i] == Script(a[1..], b[1..])[i - 1]; }
        }
      }
    } else if Unchanged(ops) {
      SameWhenUnchanged(ops);
      ScriptIsFaithful(a, b);
    }
  }

  lemma {:induction false} SameWhenUnchanged(ops: seq<Op>)
    requires Unchanged(ops)
    ensures OldLines(ops) == NewLines(ops)
  {
    if ops != [] {
      assert ops[0].kind.Keep?;
      SameWhenUnchanged(ops[1..]);
    }
  }

  // ----- the script is a shortest one -----

  /** `s` can be read off `a` by leaving lines out. */
  predicate Subsequence(s: seq<string>, a: seq<string>) {
    if s == [] then true
    else if a == [] then false
    else (s[0] == a[0] && Subsequence(s[1..], a[1..])) || Subsequence(s, a[1..])
  }

  lemma {:induction false} DropFirst(s: seq<string>, a: seq<string>)
    requires s != [] && Subsequence(s, a)
    ensures a != [] && Subsequence(s[1..], a[1..])
    decreases |a|
  {
    if !(s[0] == a[0] && Subsequence(s[1..], a[1..])) {
      DropFirst(s, a[1..]);
      Widen(s[1..], a[1..]);
    }
  }

  lemma {:induction false} Widen(s: seq<string>, a: seq<string>)
    requires a != [] && Subsequence(s, a[1..])
    ensures Subsequence(s, a)
  {
  }

  /** Every table cell is the true length of a longest common subsequence: none is longer ... */
  lemma {:induction false} NoCommonSubsequenceIsLonger(s: seq<string>, a: seq<string>, b: seq<string>)
    requires Subsequence(s, a) && Subsequence(s, b)
    ensures |s| <= Lcs(a, b)
    decreases |a| + |b|
  {
    if s != [] {
      if a[0] == b[0] {
        DropFirst(s, a);
        DropFirst(s, b);
        NoCommonSubsequenceIsLonger(s[1..], a[1..], b[1..]);
      } else if s[0] == a[0] {
        NoCommonSubsequenceIsLonger(s, a, b[1..]);
      } else {
        NoCommonSubsequenceIsLonger(s, a[1..], b);
      }
    }
  }

  /** ... and the lines any script keeps form one. */
  lemma {:induction false} KeptIsCommon(ops: seq<Op>)
    ensures Subsequence(Kept(ops), OldLines(ops)) && Subsequence(Kept(ops), NewLines(ops))
    ensures |ops| == |OldLines(ops)| + |NewLines(ops)| - |Kept(ops)|
  {
    if ops != [] {
      KeptIsCommon(ops[1..]);
      var old_, new_, kept := OldLines(ops), NewLines(ops), Kept(ops);
      match ops[0].kind {
        case Keep =>
          assert old_[1..] == OldLines(ops[1..]) && new_[1..] == NewLines(ops[1..]) && kept[1..] == Kept(ops[1..]);
        case Delete =>
          assert old_[1..] == OldLines(ops[1..]) && new_ == NewLines(ops[1..]) && kept == Kept(ops[1..]);
          Widen(kept, old_);
        case Add =>
          assert old_ == OldLines(ops[1..]) && new_[1..] == NewLines(ops[1..]) && kept == Kept(ops[1..]);
          Widen(kept, new_);
      }
    }
  }

  /** No script between the same texts keeps more lines or is shorter than the one the walk finds. */
  lemma ScriptIsShortest(a: seq<string>, b: seq<string>, other: seq<Op>)
    requires OldLines(other) == a && NewLines(other) == b
    ensures Subsequence(Kept(Script(a, b)), a) && Subsequence(Kept(Script(a, b)), b)
    ensures |Kept(other)| <= |Kept(Script(a, b))| == Lcs(a, b)
    ensures |Script(a, b)| <= |other|
  {
    ScriptIsFaithful(a, b);
    KeptIsCommon(Script(a, b));
    KeptIsCommon(other);
    NoCommonSubsequenceIsLonger(Kept(other), a, b);
  }

  // ----- which of the shortest scripts it is -----

  /** Where two scripts first differ, the first one keeps a line or, failing that, deletes one. */
  ghost predicate NoLater(x: seq<Op>, y: seq<Op>) {
    x == y
    || (x != [] && y != []
        && if x[0] == y[0] then NoLater(x[1..], y[1..])
           else x[0].kind.Keep? || (x[0].kind.Delete? && y[0].kind.Add?))
  }

  lemma ScriptLength(a: seq<string>, b: seq<string>)
    ensures |Script(a, b)| == |a| + |b| - Lcs(a, b)
  {
    ScriptIsFaithful(a, b);
    KeptIsCommon(Script(a, b));
  }

  /** A script that begins with an operation goes on as one between what is left of the two texts. */
  lemma FirstOp(ops: seq<Op>, a: seq<string>, b: seq<string>)
    requires OldLines(ops) == a && NewLines(ops) == b && (a != [] || b != [])
    ensures ops != []
    ensures match ops[0].kind
            case Keep => a != [] && b != [] && a[0] == b[0] == ops[0].text
                         && OldLines(ops[1..]) == a[1..] && NewLines(ops[1..]) == b[1..]
            case Delete => a != [] && a[0] == ops[0].text && OldLines(ops[1..]) == a[1..] && NewLines(ops[1..]) == b
            case Add => b != [] && b[0] == ops[0].text && OldLines(ops[1..]) == a && NewLines(ops[1..]) == b[1..]
  {
  }

  /** An optimal script adds a line first only where deleting one first would not be optimal. */
  lemma AddIsForced(a: seq<string>, b: seq<string>, other: seq<Op>)
    requires a != [] && b != [] && a[0] != b[0] && Lcs(a[1..], b) < Lcs(a, b[1..])
    requires OldLines(other) == a && NewLines(other) == b && |other| == |Script(a, b)|
    ensures other != [] && !other[0].kind.Delete?
  {
    FirstOp(other, a, b);
    if other[0].kind.Delete? {
      ScriptIsShortest(a[1..], b, other[1..]);
      ScriptLength(a[1..], b);
      ScriptLength(a, b);
    }
  }

  /**
   * Of all scripts as short as the walk's it is the first: wherever another one parts from it, the walk keeps a line
   * that the other does not, or deletes where the other adds. With `ScriptIsShortest` this leaves no other script.
   */
  lemma {:induction false} ScriptComesFirst(a: seq<string>, b: seq<string>, other: seq<Op>)
    requires OldLines(other) == a && NewLines(other) == b && |other| == |Script(a, b)|
    ensures NoLater(Script(a, b), other)
    decreases |a| + |b|
  {
    hide OldLines, NewLines, Script, Lcs;
    ScriptFrom(a, b);
    if a != [] || b != [] {
      FirstOp(other, a, b);
      var ops := Script(a, b);
      assert ops == [ops[0]] + ops[1..] && other == [other[0]] + other[1..];
      if a != [] && b != [] && a[0] != b[0] && ops[0].kind.Add? { AddIsForced(a, b, other); }
      if ops[0] == other[0] {
        match ops[0].kind {
          case Keep => ScriptComesFirst(a[1..], b[1..], other[1..]);
          case Delete => ScriptComesFirst(a[1..], b, other[1..]);
          case Add => ScriptComesFirst(a, b[1..], other[1..]);
        }
      }
    } else {
      NothingToDo(other);
    }
  }

  lemma NothingToDo(ops: seq<Op>)
    requires OldLines(ops) == [] && NewLines(ops) == []
    ensures ops == []
  {
  }

  /** The first turn of the walk. */
  lemma ScriptFrom(a: seq<string>, b: seq<string>)
    ensures a == [] && b == [] ==> Script(a, b) == []
    ensures a != [] && b != [] && a[0] == b[0] ==>
              Script(a, b) != [] && Script(a, b)[0] == Op(Keep, a[0]) && Script(a, b)[1..] == Script(a[1..], b[1..])
    ensures (a != [] || b != []) && !(a != [] && b != [] && a[0] == b[0]) ==>
              Script(a, b) != []
              && if b == [] || (a != [] && Lcs(a[1..], b) >= Lcs(a, b[1..]))
                 then a != [] && Script(a, b)[0] == Op(Delete, a[0]) && Script(a, b)[1..] == Script(a[1..], b)
                 else b != [] && Script(a, b)[0] == Op(Add, b[0]) && Script(a, b)[1..] == Script(a, b[1..])
  {
  }
}
