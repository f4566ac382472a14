/** Text put together from pieces, and how such texts compare. */
module Joins {

  function Joined(pieces: seq<string>): string {
    if pieces == [] then "" else pieces[0] + Joined(pieces[1..])
  }

  // One piece for each position from..n.
  function Tabulated(piece: nat -> string, from: nat, n: nat): (r: seq<string>)
    requires from <= n
    ensures |r| == n - from
    decreases n - from
  {
    if from == n then [] else [piece(from)] + Tabulated(piece, from + 1, n)
  }

  lemma {:induction false} TabulatedAt(piece: nat -> string, from: nat, n: nat, i: nat)
    requires from <= i < n
    ensures Tabulated(piece, from, n)[i - from] == piece(i)
    decreases i - from
  {
    if from < i {
      TabulatedAt(piece, from + 1, n, i);
    }
  }

  lemma {:induction false} TabulatedTail(piece: nat -> string, from: nat, n: nat)
    requires from < n
    ensures Joined(Tabulated(piece, from, n)) == piece(from) + Joined(Tabulated(piece, from + 1, n))
  {
    assert Tabulated(piece, from, n)[1..] == Tabulated(piece, from + 1, n);
  }

  lemma {:induction false} JoinedSplit(xs: seq<string>, ys: seq<string>)
    ensures Joined(xs + ys) == Joined(xs) + Joined(ys)
    decreases |xs|
  {
    if xs == [] {
      assert xs + ys == ys;
    } else {
      assert (xs + ys)[1..] == xs[1..] + ys;
      JoinedSplit(xs[1..], ys);
    }
  }

  // One character a piece joins to the text itself.
  lemma {:induction false} JoinedText(pieces: seq<string>, text: string)
    requires |pieces| == |text| && forall i :: 0 <= i < |text| ==> pieces[i] == [text[i]]
    ensures Joined(pieces) == text
    decreases |text|
  {
    if text != "" {
      JoinedText(pieces[1..], text[1..]);
      assert text == [text[0]] + text[1..];
    }
  }

  lemma {:induction false} JoinedBlank(pieces: seq<string>)
    requires forall i :: 0 <= i < |pieces| ==> pieces[i] == ""
    ensures Joined(pieces) == ""
    decreases |pieces|
  {
    if pieces != [] {
      JoinedBlank(pieces[1..]);
    }
  }

  // From p on: the text t, then nothing up to q, then as h reads.
  lemma {:induction false} JoinedLead(f: seq<string>, h: seq<string>, p: nat, q: nat, t: string)
    requires |f| == |h| && p <= q < |f|
    requires f[p] == t + (if p == q then h[p] else "")
    requires forall i :: p < i < q ==> f[i] == ""
    requires forall i :: p < i < |f| && q <= i ==> f[i] == h[i]
    ensures Joined(f[p..]) == t + Joined(h[q..])
  {
    assert f[p..][0] == f[p] && f[p..][1..] == f[p + 1..];
    if p == q {
      assert h[q..][0] == h[q] && h[q..][1..] == h[q + 1..];
      assert f[p + 1..] == h[q + 1..];
    } else {
      assert f[p + 1..] == f[p + 1..q] + h[q..];
      JoinedBlank(f[p + 1..q]);
      JoinedSplit(f[p + 1..q], h[q..]);
    }
  }

  // A text t put where the positions p..q were: f and g agree before it, f goes on after q as h does, and g
  // reads t and then what h reads from q on.
  lemma {:induction false} PiecesSplice(f: seq<string>, h: seq<string>, g: seq<string>, p: nat, q: nat, t: string)
    requires |f| == |h| && p <= q < |f| && |g| == p + |t| + (|f| - q)
    requires f[..p] == g[..p] && h[q..] == g[p + |t|..]
    requires forall i :: p <= i < p + |t| ==> g[i] == [t[i - p]]
    requires f[p] == t + (if p == q then h[p] else "")
    requires forall i :: p < i < q ==> f[i] == ""
    requires forall i :: p < i < |f| && q <= i ==> f[i] == h[i]
    ensures Joined(g) == Joined(f)
  {
    JoinedLead(f, h, p, q, t);
    assert f == f[..p] + f[p..];
    JoinedSplit(f[..p], f[p..]);
    var middle := g[p..p + |t|];
    JoinedText(middle, t);
    assert g == g[..p] + (middle + g[p + |t|..]);
    JoinedSplit(g[..p], middle + g[p + |t|..]);
    JoinedSplit(middle, g[p + |t|..]);
  }
}
