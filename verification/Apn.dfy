/**
 mme/Subscription.c: turns an APN such as "test.apn" into the length-prefixed labels of section 3.1 of
 RFC 1035 and section 9.1 of 3GPP TS 23.003, by overwriting the dots in place.
 */
module Apn {
  import opened Common
  import opened Octets

  const DOT: Octet := 0x2E

  type Label = seq<Octet>

  /** The label after the last dot. */
  function Open(s: seq<Octet>): Label {
    if s == [] || s[|s| - 1] == DOT then [] else Open(s[..|s| - 1]) + [s[|s| - 1]]
  }

  /** The labels that a dot ends. */
  function Closed(s: seq<Octet>): seq<Label> {
    if s == [] then []
    else if s[|s| - 1] == DOT then Closed(s[..|s| - 1]) + [Open(s[..|s| - 1])]
    else Closed(s[..|s| - 1])
  }

  /** The parts of `s` between its dots; empty parts included. */
  function Split(s: seq<Octet>): seq<Label> {
    Closed(s) + [Open(s)]
  }

  function Front(ls: seq<Label>): seq<Label>
    requires ls != []
  {
    ls[..|ls| - 1]
  }

  function Last(ls: seq<Label>): Label
    requires ls != []
  {
    ls[|ls| - 1]
  }

  /** The labels with dots between them. */
  function Joined(ls: seq<Label>): seq<Octet> {
    if ls == [] then []
    else if |ls| == 1 then ls[0]
    else Joined(Front(ls)) + [DOT] + Last(ls)
  }

  /** Every label behind its length. */
  function Encoded(ls: seq<Label>): seq<Octet> {
    if ls == [] then [] else [|ls[0]| % 256] + ls[0] + Encoded(ls[1..])
  }

  /** What a receiver reads: length, label, length, label, to the end. */
  function Walk(b: seq<Octet>): Option<seq<Label>> {
    if b == [] then Some([])
    else
      var n: nat := b[0];
      if |b| < 1 + n then None
      else
        var rest := Walk(b[1 + n..]);
        if rest.None? then None else Some([b[1..1 + n]] + rest.value)
  }

  ghost predicate Labels(ls: seq<Label>, max: nat) {
    forall i :: 0 <= i < |ls| ==> DOT !in ls[i] && |ls[i]| <= max
  }

  lemma SplitMore(s: seq<Octet>, c: Octet)
    ensures Open(s + [c]) == if c == DOT then [] else Open(s) + [c]
    ensures Closed(s + [c]) == if c == DOT then Split(s) else Closed(s)
  {
    assert (s + [c])[..|s|] == s;
  }

  lemma {:induction false} OpenEnds(s: seq<Octet>)
    ensures |Open(s)| <= |s| && DOT !in Open(s)
  {
    if s != [] {
      OpenEnds(s[..|s| - 1]);
    }
  }

  lemma {:induction false} SplitLabels(s: seq<Octet>)
    ensures Labels(Split(s), |s|)
  {
    OpenEnds(s);
    if s != [] {
      var t := s[..|s| - 1];
      SplitLabels(t);
      assert forall i :: 0 <= i < |Closed(t)| ==> Closed(t)[i] == Split(t)[i];
      assert Split(t)[|Closed(t)|] == Open(t);
    }
  }

  lemma {:induction false} EncodedSnoc(ls: seq<Label>, l: Label)
    ensures Encoded(ls + [l]) == Encoded(ls) + [|l| % 256] + l
  {
    if ls == [] {
      assert ([] + [l])[1..] == [];
    } else {
      EncodedSnoc(ls[1..], l);
      assert (ls + [l])[1..] == ls[1..] + [l] && (ls + [l])[0] == ls[0];
    }
  }

  lemma {:induction false} ClosedSize(s: seq<Octet>)
    ensures |Encoded(Closed(s))| + |Open(s)| == |s|
  {
    if s != [] {
      var t := s[..|s| - 1];
      ClosedSize(t);
      EncodedSnoc(Closed(t), Open(t));
    }
  }

  lemma WalkCons(b: seq<Octet>, ls: seq<Label>, rest: seq<Octet>)
    requires ls != [] && |ls[0]| < 256 && b == [|ls[0]|] + ls[0] + rest && Walk(rest) == Some(ls[1..])
    ensures Walk(b) == Some(ls)
  {
    var l := ls[0];
    assert b[0] == |l| && b[1..1 + |l|] == l && b[1 + |l|..] == rest;
    assert ls == [l] + ls[1..];
  }

  /** Quantified over the octets, so that the two recursions stay apart in proofs. */
  ghost predicate WalksBack(ls: seq<Label>) {
    forall b :: b == Encoded(ls) ==> Walk(b) == Some(ls)
  }

  lemma WalksBackMore(ls: seq<Label>)
    requires ls != [] && |ls[0]| < 256 && WalksBack(ls[1..])
    ensures WalksBack(ls)
  {
    forall b | b == Encoded(ls) ensures Walk(b) == Some(ls) {
      WalkCons(b, ls, Encoded(ls[1..]));
    }
  }

  lemma {:induction false} AllWalkBack(ls: seq<Label>)
    requires Labels(ls, 255)
    ensures WalksBack(ls)
  {
    if ls != [] {
      AllWalkBack(ls[1..]);
      WalksBackMore(ls);
    }
  }

  lemma WalkEncoded(ls: seq<Label>)
    requires Labels(ls, 255)
    ensures Walk(Encoded(ls)) == Some(ls)
  {
    AllWalkBack(ls);
  }

  lemma JoinedSnoc(ls: seq<Label>, l: Label)
    ensures Joined(ls + [l]) == if ls == [] then l else Joined(ls) + [DOT] + l
  {
    assert Front(ls + [l]) == ls;
  }

  lemma {:induction false} JoinSplit(s: seq<Octet>)
    ensures Joined(Split(s)) == s
  {
    JoinedSnoc(Closed(s), Open(s));
    if s != [] {
      var t := s[..|s| - 1];
      JoinSplit(t);
      JoinedSnoc(Closed(t), Open(t));
    }
  }

  lemma {:induction false} SplitAppend(s: seq<Octet>, l: Label)
    requires DOT !in l
    ensures Closed(s + [DOT] + l) == Split(s) && Open(s + [DOT] + l) == l
  {
    if l == [] {
      assert s + [DOT] + l == s + [DOT];
      SplitMore(s, DOT);
    } else {
      var k := l[..|l| - 1];
      SplitAppend(s, k);
      SplitMore(s + [DOT] + k, l[|l| - 1]);
      assert l == k + [l[|l| - 1]];
      assert s + [DOT] + l == s + [DOT] + k + [l[|l| - 1]];
    }
  }

  lemma {:induction false} SplitOne(l: Label)
    requires DOT !in l
    ensures Closed(l) == [] && Open(l) == l
  {
    if l != [] {
      SplitOne(l[..|l| - 1]);
    }
  }

  lemma SplitSnoc(ls: seq<Label>, l: Label)
    requires ls != [] && DOT !in l && Split(Joined(ls)) == ls
    ensures Split(Joined(ls + [l])) == ls + [l]
  {
    JoinedSnoc(ls, l);
    SplitAppend(Joined(ls), l);
  }

  /** A list of dot-free labels is the only reading of its dotted form. */
  lemma {:induction false} SplitJoined(ls: seq<Label>, max: nat)
    requires ls != [] && Labels(ls, max)
    ensures Split(Joined(ls)) == ls
  {
    if |ls| == 1 {
      SplitOne(ls[0]);
    } else {
      SplitJoined(Front(ls), max);
      SplitSnoc(Front(ls), Last(ls));
      assert ls == Front(ls) + [Last(ls)];
    }
  }

  /** For every name of at most 255 octets, a receiver reads its labels and joins them to the name again. */
  lemma RoundTrip(s: seq<Octet>)
    requires |s| <= 255
    ensures Walk(Encoded(Split(s))) == Some(Split(s))
    ensures Joined(Walk(Encoded(Split(s))).value) == s
    ensures |Encoded(Split(s))| == |s| + 1
  {
    SplitLabels(s);
    WalkEncoded(Split(s));
    JoinSplit(s);
    ClosedSize(s);
    EncodedSnoc(Closed(s), Open(s));
  }

  lemma {:induction false} OpenIs(s: seq<Octet>, p: nat)
    requires p <= |s| && (p == 0 || s[p - 1] == DOT) && DOT !in s[p..]
    ensures Open(s) == s[p..]
  {
    if p < |s| {
      var t := s[..|s| - 1];
      assert s[|s| - 1] == s[p..][|s| - 1 - p];
      assert forall x :: x in t[p..] ==> x in s[p..];
      OpenIs(t, p);
      assert s[p..] == t[p..] + [s[|s| - 1]];
    }
  }

  lemma {:induction false} OpenBehind(s: seq<Octet>, k: nat)
    requires k < |s| && s[k] == DOT
    ensures |Open(s)| < |s| - k
  {
    if s[|s| - 1] != DOT {
      OpenBehind(s[..|s| - 1], k);
    }
  }

  /** The label that starts at `p` and has `n` octets, in the encoding of the whole name. */
  ghost predicate LabelAt(s: seq<Octet>, p: nat, n: nat) {
    && p + n <= |s| && (p == 0 || s[p - 1] == DOT) && DOT !in s[p..p + n] && (p + n == |s| || s[p + n] == DOT)
  }

  /** Encodings of a name and of the name with one more octet agree up to the open label. */
  lemma EncodedGrows(t: seq<Octet>, c: Octet)
    ensures Encoded(Closed(t)) <= Encoded(Split(t)) && Encoded(Closed(t)) <= Encoded(Split(t + [c]))
    ensures c == DOT ==> Encoded(Split(t)) <= Encoded(Split(t + [c]))
  {
    SplitMore(t, c);
    EncodedSnoc(Closed(t), Open(t));
    EncodedSnoc(Closed(t + [c]), Open(t + [c]));
  }

  /** Octet by octet: where a label starts its length stands, and the label follows one octet later than in the name. */
  ghost predicate SealedAt(e: seq<Octet>, s: seq<Octet>, p: nat, n: nat)
    requires p + n <= |s|
  {
    p + 1 + n <= |e| && e[p] == n && e[p + 1..p + 1 + n] == s[p..p + n]
  }

  lemma SealedPrefix(a: seq<Octet>, b: seq<Octet>, e: seq<Octet>, s: seq<Octet>, t: seq<Octet>, p: nat, n: nat)
    requires p + n <= |t| && t <= s && e <= a && e <= b && p + 1 + n <= |e| && SealedAt(a, t, p, n)
    ensures SealedAt(b, s, p, n)
  {
    assert e[p] == a[p] == b[p];
    assert a[p + 1..p + 1 + n] == e[p + 1..p + 1 + n] == b[p + 1..p + 1 + n];
    assert s[p..p + n] == t[p..p + n];
  }

  lemma LastLabel(s: seq<Octet>, p: nat, n: nat)
    requires |s| <= 255 && LabelAt(s, p, n) && p + n == |s|
    ensures SealedAt(Encoded(Split(s)), s, p, n)
  {
    assert s[p..p + n] == s[p..];
    OpenIs(s, p);
    ClosedSize(s);
    EncodedSnoc(Closed(s), Open(s));
  }

  lemma {:induction false} EncodedOctets(s: seq<Octet>, p: nat, n: nat)
    requires |s| <= 255 && LabelAt(s, p, n)
    ensures SealedAt(Encoded(Split(s)), s, p, n)
  {
    if p + n == |s| {
      LastLabel(s, p, n);
    } else {
      var k := |s| - 1;
      var t := s[..k];
      assert s == t + [s[k]] && s[p..p + n] == t[p..p + n];
      EncodedOctets(t, p, n);
      EncodedGrows(t, s[k]);
      ClosedSize(t);
      if p + n < k {
        OpenBehind(t, p + n);
        SealedPrefix(Encoded(Split(t)), Encoded(Split(s)), Encoded(Closed(t)), s, t, p, n);
      } else {
        SealedPrefix(Encoded(Split(t)), Encoded(Split(s)), Encoded(Split(t)), s, t, p, n);
      }
    }
  }

  /** State of either encoder before position `i`: closed labels are out, `n` octets of the open one are read. */
  ghost predicate At(apn: seq<Octet>, i: nat, n: nat, done: seq<Octet>) {
    && n <= i <= |apn| && |done| == i - n
    && forall s :: s == apn[..i] ==> apn[i - n..i] == Open(s) && done == Encoded(Closed(s))
  }

  /** A label behind its length, after the ones before. */
  function Sealed(done: seq<Octet>, l: Label): seq<Octet> {
    done + [|l| % 256] + l
  }

  lemma AtStep(apn: seq<Octet>, i: nat, n: nat, done: seq<Octet>)
    requires At(apn, i, n, done) && i < |apn|
    ensures apn[i] != DOT ==> At(apn, i + 1, n + 1, done)
    ensures apn[i] == DOT ==> At(apn, i + 1, 0, Sealed(done, apn[i - n..i]))
  {
    var t := apn[..i];
    assert apn[i - n..i] == Open(t) && done == Encoded(Closed(t));
    assert apn[..i + 1] == t + [apn[i]];
    SplitMore(t, apn[i]);
    EncodedSnoc(Closed(t), Open(t));
    assert apn[i - n..i + 1] == apn[i - n..i] + [apn[i]];
    assert apn[i + 1..i + 1] == [];
  }

  lemma AtEnd(apn: seq<Octet>, i: nat, n: nat, done: seq<Octet>)
    requires At(apn, i, n, done)
    ensures Sealed(done, apn[i - n..i]) == Encoded(Split(apn[..i]))
  {
    assert apn[i - n..i] == Open(apn[..i]) && done == Encoded(Closed(apn[..i]));
    EncodedSnoc(Closed(apn[..i]), Open(apn[..i]));
  }

  /** The buffer at work: whole labels, the slot for the next length, the name from `k` on, and what lies behind. */
  ghost function Shown(done: seq<Octet>, slot: Octet, apn: seq<Octet>, k: nat, tail: seq<Octet>): seq<Octet>
    requires k <= |apn|
  {
    done + [slot] + apn[k..] + tail
  }

  lemma ShownAt(done: seq<Octet>, slot: Octet, apn: seq<Octet>, k: nat, tail: seq<Octet>, i: nat, x: Octet)
    requires |done| == k <= i < |apn|
    ensures var b := Shown(done, slot, apn, k, tail);
            b[i + 1] == apn[i] && b[k := x] == Shown(done, x, apn, k, tail)
  {
  }

  /** The dot that ends a label is the slot of the next length. */
  lemma ShownClosed(done: seq<Octet>, slot: Octet, apn: seq<Octet>, k: nat, tail: seq<Octet>, i: nat)
    requires k <= i < |apn| && slot == i - k
    ensures Shown(done, slot, apn, k, tail) == Shown(Sealed(done, apn[k..i]), apn[i], apn, i + 1, tail)
  {
    assert apn[k..] == apn[k..i] + [apn[i]] + apn[i + 1..];
  }

  lemma ShownEnd(done: seq<Octet>, slot: Octet, apn: seq<Octet>, k: nat, tail: seq<Octet>, i: nat, x: Octet)
    requires k <= i <= |apn| && x == i - k && At(apn, i, i - k, done)
    ensures Shown(done, slot, apn, k, tail)[k := x] == Encoded(Split(apn[..i])) + apn[i..] + tail
  {
    assert apn[k..] == apn[k..i] + apn[i..];
    AtEnd(apn, i, i - k, done);
  }

  /** The in-place encoder before position `i`. */
  ghost predicate InPlace(apn: seq<Octet>, i: nat, n: nat, tail: seq<Octet>, b: seq<Octet>) {
    && n <= i <= |apn| && |b| == |apn| + 1 + |tail|
    && At(apn, i, n, b[..i - n])
    && b == Shown(b[..i - n], b[i - n], apn, i - n, tail)
  }

  lemma InPlaceStart(apn: seq<Octet>, slot: Octet, tail: seq<Octet>)
    ensures InPlace(apn, 0, 0, tail, [slot] + apn + tail)
  {
    var b := [slot] + apn + tail;
    assert apn[0..] == apn && [] + [slot] == [slot];
    assert b[..0] == [] && b == Shown([], slot, apn, 0, tail);
  }

  lemma InPlaceDot(apn: seq<Octet>, i: nat, n: nat, tail: seq<Octet>, b: seq<Octet>)
    requires InPlace(apn, i, n, tail, b) && n <= 255 && i < |apn| && apn[i] == DOT
    ensures InPlace(apn, i + 1, 0, tail, b[i - n := n])
  {
    var done := b[..i - n];
    AtStep(apn, i, n, done);
    ShownAt(done, b[i - n], apn, i - n, tail, i, n);
    ShownClosed(done, n, apn, i - n, tail, i);
    assert b[i - n := n][..i + 1] == Sealed(done, apn[i - n..i]);
  }

  lemma InPlaceOther(apn: seq<Octet>, i: nat, n: nat, tail: seq<Octet>, b: seq<Octet>)
    requires InPlace(apn, i, n, tail, b) && i < |apn|
    ensures b[i + 1] == apn[i]
    ensures apn[i] != DOT ==> InPlace(apn, i + 1, n + 1, tail, b)
  {
    AtStep(apn, i, n, b[..i - n]);
    ShownAt(b[..i - n], b[i - n], apn, i - n, tail, i, 0);
  }

  lemma InPlaceEnd(apn: seq<Octet>, i: nat, n: nat, tail: seq<Octet>, b: seq<Octet>)
    requires InPlace(apn, i, n, tail, b) && n <= 255
    ensures b[i - n := n] == Encoded(Split(apn[..i])) + apn[i..] + tail
  {
    ShownEnd(b[..i - n], b[i - n], apn, i - n, tail, i, n);
  }

  // ---- the in-place loop, with its uint8 variables ----

  /** Index, label length and memory; `mem(k)` is the octet at buffer + k, also outside the buffer. */
  datatype Scan = Scan(i: Octet, labelLen: Octet, mem: int -> Octet)

  function Store(mem: int -> Octet, at: int, x: Octet): int -> Octet {
    (k: int) => if k == at then x else mem(k)
  }

  /** One round; both variables are uint8 and wrap around. */
  function Round(s: Scan): Scan {
    if s.mem(s.i + 1) == DOT then Scan((s.i + 1) % 256, 0, Store(s.mem, s.i - s.labelLen, s.labelLen))
    else Scan((s.i + 1) % 256, (s.labelLen + 1) % 256, s.mem)
  }

  function Rounds(s: Scan, k: nat): Scan {
    if k == 0 then s else Round(Rounds(s, k - 1))
  }

  /** The loop guard. */
  predicate Continues(s: Scan, len: nat, maxLen: nat) {
    s.i < len && s.i < maxLen
  }

  lemma NextIndex(a: nat)
    ensures (a % 256 + 1) % 256 == (a + 1) % 256
  {
  }

  lemma {:induction false} IndexAfter(s: Scan, k: nat)
    ensures Rounds(s, k).i == (s.i + k) % 256
  {
    if k > 0 {
      IndexAfter(s, k - 1);
      NextIndex(s.i + k - 1);
    }
  }

  /** Some round finds the guard false. */
  ghost predicate Ends(s: Scan, len: nat, maxLen: nat) {
    exists k: nat :: !Continues(Rounds(s, k), len, maxLen)
  }

  /** The loop ends exactly when it has at most 255 octets to go over, whatever the memory holds. */
  lemma LoopEndsExactly(s: Scan, len: nat, maxLen: nat)
    requires s.i == 0
    ensures Ends(s, len, maxLen) <==> Min(len, maxLen) <= 255
  {
    var m := Min(len, maxLen);
    if m <= 255 {
      IndexAfter(s, m);
      assert !Continues(Rounds(s, m), len, maxLen);
    } else {
      forall k: nat ensures Continues(Rounds(s, k), len, maxLen) { IndexAfter(s, k); }
    }
  }

  ghost predicate Agrees(mem: int -> Octet, b: seq<Octet>) {
    forall k :: 0 <= k < |b| ==> mem(k) == b[k]
  }

  /** A round inside the buffer, on the buffer. */
  lemma RoundAgrees(mem: int -> Octet, b: seq<Octet>, i: Octet, n: Octet)
    requires Agrees(mem, b) && n <= i && i + 1 < |b|
    ensures var s := Round(Scan(i, n, mem));
            if b[i + 1] == DOT then s.labelLen == 0 && Agrees(s.mem, b[i - n := n])
            else s.labelLen == (n + 1) % 256 && Agrees(s.mem, b)
  {
    assert mem(i + 1) == b[i + 1];
  }

  /** The encoder's progress and the round agree. Quantified over the buffer, which keeps it folded in proofs. */
  ghost predicate Marks(apn: seq<Octet>, i: nat, n: nat, tail: seq<Octet>, b: seq<Octet>, s: Scan) {
    && s.i == i && s.labelLen == n
    && forall c :: c == b ==> InPlace(apn, i, n, tail, c) && Agrees(s.mem, c)
  }

  lemma MarksDot(apn: seq<Octet>, i: Octet, n: Octet, tail: seq<Octet>, b: seq<Octet>, s: Scan)
    requires Marks(apn, i, n, tail, b, s) && n <= i < 255 && i < |apn| && i + 1 < |b| && b[i + 1] == DOT
    ensures Marks(apn, i + 1, 0, tail, b[i - n := n], Round(s))
  {
    assert InPlace(apn, i, n, tail, b);
    assert apn[i] == DOT by { InPlaceOther(apn, i, n, tail, b); }
    assert InPlace(apn, i + 1, 0, tail, b[i - n := n]) by { InPlaceDot(apn, i, n, tail, b); }
    RoundAgrees(s.mem, b, i, n);
  }

  lemma MarksOther(apn: seq<Octet>, i: Octet, n: Octet, tail: seq<Octet>, b: seq<Octet>, s: Scan)
    requires Marks(apn, i, n, tail, b, s) && n <= i < 255 && i < |apn| && i + 1 < |b| && b[i + 1] != DOT
    ensures Marks(apn, i + 1, n + 1, tail, b, Round(s))
  {
    assert InPlace(apn, i, n, tail, b);
    assert InPlace(apn, i + 1, n + 1, tail, b) by { InPlaceOther(apn, i, n, tail, b); }
    RoundAgrees(s.mem, b, i, n);
  }

  lemma MarksStart(apn: seq<Octet>, slot: Octet, tail: seq<Octet>, b: seq<Octet>, mem: int -> Octet)
    requires b == [slot] + apn + tail && Agrees(mem, b)
    ensures Marks(apn, 0, 0, tail, b, Scan(0, 0, mem))
  {
    InPlaceStart(apn, slot, tail);
  }

  lemma MarksEnd(apn: seq<Octet>, i: Octet, n: Octet, tail: seq<Octet>, b: seq<Octet>, s: Scan)
    requires Marks(apn, i, n, tail, b, s) && n <= i && i - n < |b|
    ensures i <= |apn| && b[i - n := n] == Encoded(Split(apn[..i])) + apn[i..] + tail
  {
    assert InPlace(apn, i, n, tail, b);
    InPlaceEnd(apn, i, n, tail, b);
  }

  /** One round of the in-place loop. */
  method MarkOctet(apn: seq<Octet>, buffer: array<Octet>, i: Octet, labelLen: Octet, ghost tail: seq<Octet>,
                   ghost s: Scan)
    returns (i': Octet, n: Octet)
    requires labelLen <= i < 255 && i < |apn| && i + 1 < buffer.Length && Marks(apn, i, labelLen, tail, buffer[..], s)
    modifies buffer
    ensures i' == i + 1 && n <= i' && Marks(apn, i', n, tail, buffer[..], Round(s))
  {
    i' := (i + 1) % 256;
    if buffer[i + 1] == DOT {
      MarksDot(apn, i, labelLen, tail, buffer[..], s);
      buffer[i - labelLen] := labelLen;
      n := 0;
    } else {
      MarksOther(apn, i, labelLen, tail, buffer[..], s);
      n := (labelLen + 1) % 256;
    }
  }

  /** The in-place loop: its variables and the buffer are those of the rounds above. */
  method MarkAll(apn: seq<Octet>, buffer: array<Octet>, maxLen: nat, ghost tail: seq<Octet>, ghost start: Scan)
    returns (i: Octet, labelLen: Octet)
    requires Min(|apn|, maxLen) <= 255 && |apn| < buffer.Length && Marks(apn, 0, 0, tail, buffer[..], start)
    modifies buffer
    ensures i == Min(|apn|, maxLen) && labelLen <= i && Marks(apn, i, labelLen, tail, buffer[..], Rounds(start, i))
  {
    i, labelLen := 0, 0;
    while i < |apn| && i < maxLen
      invariant labelLen <= i <= Min(|apn|, maxLen)
      invariant Marks(apn, i, labelLen, tail, buffer[..], Rounds(start, i))
      decreases |apn| - i
    {
      i, labelLen := MarkOctet(apn, buffer, i, labelLen, tail, Rounds(start, i));
    }
  }

  /**
   subs_getEncodedAPN: the first `maxLen` octets at most are encoded, the rest follows unchanged. With more
   than 255 octets to go over the loop does not end (`LoopEndsExactly`).
   */
  method GetEncodedApn(apn: seq<Octet>, buffer: array<Octet>, maxLen: nat) returns (len: nat)
    requires Min(|apn|, maxLen) <= 255 && |apn| + 1 <= buffer.Length
    modifies buffer
    ensures len == |apn| + 1
    ensures var m := Min(|apn|, maxLen);
            buffer[..] == Encoded(Split(apn[..m])) + apn[m..] + old(buffer[..])[len..]
  {
    ghost var was, tail := buffer[..], buffer[..][|apn| + 1..];
    Memcpy(buffer, 1, apn);
    ghost var b := buffer[..];
    assert b == [was[0]] + apn + tail;
    ghost var mem: int -> Octet := k => if 0 <= k < |b| then b[k] else 0;
    MarksStart(apn, was[0], tail, b, mem);
    var i, labelLen := MarkAll(apn, buffer, maxLen, tail, Scan(0, 0, mem));
    MarksEnd(apn, i, labelLen, tail, buffer[..], Rounds(Scan(0, 0, mem), i));
    buffer[i - labelLen] := labelLen;
    len := |apn| + 1;
  }

  /** A length and its label at `at`. */
  method PutLabel(res: array<Octet>, at: nat, l: Label)
    requires |l| < 256 && at + 1 + |l| <= res.Length
    modifies res
    ensures res[..] == Sealed(old(res[..])[..at], l) + old(res[..])[at + 1 + |l|..]
  {
    res[at] := |l|;
    Memcpy(res, at + 1, l);
  }

  /** The copying encoder before position `i`: closed labels, then what the array held before. */
  ghost predicate Copying(name: seq<Octet>, i: nat, n: nat, was: seq<Octet>, b: seq<Octet>) {
    && n <= i <= |name| && i < |was| == |b|
    && At(name, i, n, b[..i - n]) && b[i - n..] == was[i - n..]
  }

  lemma CopyingStart(name: seq<Octet>, was: seq<Octet>)
    requires was != []
    ensures Copying(name, 0, 0, was, was)
  {
    assert name[..0] == [];
  }

  lemma CopyingStep(name: seq<Octet>, i: nat, n: nat, was: seq<Octet>, b: seq<Octet>)
    requires Copying(name, i, n, was, b) && i < |name| && i + 1 < |was|
    ensures name[i] != DOT ==> Copying(name, i + 1, n + 1, was, b)
    ensures name[i] == DOT ==> Copying(name, i + 1, 0, was, Sealed(b[..i - n], name[i - n..i]) + b[i + 1..])
  {
    AtStep(name, i, n, b[..i - n]);
    var c := Sealed(b[..i - n], name[i - n..i]) + b[i + 1..];
    assert c[..i + 1] == Sealed(b[..i - n], name[i - n..i]);
    assert b[i + 1..] == was[i - n..][n + 1..] == was[i + 1..];
  }

  lemma CopyingEnd(name: seq<Octet>, i: nat, n: nat, was: seq<Octet>, b: seq<Octet>)
    requires Copying(name, i, n, was, b)
    ensures Sealed(b[..i - n], name[i - n..i]) + b[i + 1..] == Encoded(Split(name[..i])) + was[i + 1..]
  {
    AtEnd(name, i, n, b[..i - n]);
    assert b[i + 1..] == b[i - n..][n + 1..] == was[i - n..][n + 1..] == was[i + 1..];
  }

  /** The last label put behind the closed ones completes the encoding. */
  lemma CopyingDone(name: seq<Octet>, i: nat, n: nat, was: seq<Octet>, b: seq<Octet>, at: nat, l: Label, c: seq<Octet>)
    requires Copying(name, i, n, was, b) && at == i - n && l == name[at..at + n]
    requires c == Sealed(b[..at], l) + b[at + 1 + |l|..]
    ensures c == Encoded(Split(name[..i])) + was[i + 1..]
  {
    CopyingEnd(name, i, n, was, b);
  }

  /** A dot closes the open label: its length and its octets go behind the closed ones. */
  method CloseLabel(res: array<Octet>, name: seq<Octet>, i: nat, at: nat, labelLen: nat, ghost was: seq<Octet>)
    requires i < |name| && i + 1 < |was| && labelLen <= i < 255 && at == i - labelLen && name[i] == DOT
    requires Copying(name, i, labelLen, was, res[..])
    modifies res
    ensures Copying(name, i + 1, 0, was, res[..])
  {
    ghost var b := res[..];
    PutLabel(res, at, name[at..at + labelLen]);
    CopyingClosed(name, i, labelLen, was, b, at, name[at..at + labelLen], res[..]);
  }

  lemma CopyingClosed(name: seq<Octet>, i: nat, n: nat, was: seq<Octet>, b: seq<Octet>, at: nat, l: Label,
                      c: seq<Octet>)
    requires Copying(name, i, n, was, b) && i < |name| && i + 1 < |was| && name[i] == DOT
    requires at == i - n && l == name[at..at + n] && c == Sealed(b[..at], l) + b[at + 1 + |l|..]
    ensures Copying(name, i + 1, 0, was, c)
  {
    CopyingStep(name, i, n, was, b);
  }

  /** One round of the copying loop; `at` is also where the open label starts in the name. */
  method CopyOctet(res: array<Octet>, name: seq<Octet>, i: nat, at: nat, labelLen: nat, ghost was: seq<Octet>)
    returns (at': nat, labelLen': nat)
    requires i < |name| && i + 1 < |was| && labelLen <= i < 255 && at == i - labelLen
    requires Copying(name, i, labelLen, was, res[..])
    modifies res
    ensures labelLen' <= i + 1 && at' == i + 1 - labelLen'
    ensures Copying(name, i + 1, labelLen', was, res[..])
  {
    if name[i] == DOT {
      CloseLabel(res, name, i, at, labelLen, was);
      at', labelLen' := at + 1 + labelLen, 0;
    } else {
      CopyingStep(name, i, labelLen, was, res[..]);
      at', labelLen' := at, labelLen + 1;
    }
  }

  method CopyAll(res: array<Octet>, name: seq<Octet>, apnLen: nat, ghost was: seq<Octet>)
    returns (at: nat, labelLen: nat)
    requires apnLen <= 255 && apnLen <= |name| && apnLen < |was| && Copying(name, 0, 0, was, res[..])
    modifies res
    ensures labelLen <= apnLen && at == apnLen - labelLen && Copying(name, apnLen, labelLen, was, res[..])
  {
    var i := 0;
    at, labelLen := 0, 0;
    while i < apnLen
      invariant i <= apnLen && labelLen <= i && at == i - labelLen
      invariant Copying(name, i, labelLen, was, res[..])
    {
      at, labelLen := CopyOctet(res, name, i, at, labelLen, was);
      i := i + 1;
    }
  }

  /** encodeAPN: copies label by label; the length of the name is kept in a uint8. */
  method EncodeApn(res: array<Octet>, name: seq<Octet>)
    requires |name| % 256 + 1 <= res.Length
    modifies res
    ensures var n := |name| % 256;
            res[..] == Encoded(Split(name[..n])) + old(res[..])[n + 1..]
  {
    var apnLen := |name| % 256;
    ghost var was := res[..];
    CopyingStart(name, was);
    var at, labelLen := CopyAll(res, name, apnLen, was);
    ghost var b := res[..];
    var l := name[at..at + labelLen];
    PutLabel(res, at, l);
    CopyingDone(name, apnLen, labelLen, was, b, at, l, res[..]);
  }
}
