/** What the completeness shortcut looks for, by positions, and so exactly when it puts a refusal off. */
module HttpShortcut {
  import opened Bytes
  import opened HttpSyntax
  import opened HttpLaws
  import opened HttpGrammar

  /** From `i` on there are two line ends in a row, the second before `p`. */
  ghost predicate BlankLineAt(b: seq<byte>, i: int, p: int) {
    exists k, j :: i <= k && EolAt(b, k, j) && EolAt(b, j, p)
  }

  /** The same if a line end has just been passed. */
  ghost predicate BlankFrom(b: seq<byte>, i: int, count: int, p: int) {
    (count == 1 && EolAt(b, i, p)) || BlankLineAt(b, i, p)
  }

  predicate LoneCR(b: seq<byte>, k: int) { 0 <= k < |b| - 1 && b[k] == 13 && b[k + 1] != 10 }

  /** The first thing met from `i` on: an empty line before `r.pos`, a lone CR, or neither. */
  ghost predicate Met(b: seq<byte>, i: int, count: int, r: Scan<()>) {
    match r
    case At(p, _) =>
      && BlankFrom(b, i, count, p) && (forall q :: q < p ==> !BlankFrom(b, i, count, q))
      && forall k :: i <= k < p ==> !LoneCR(b, k)
    case Bad => exists k :: i <= k && LoneCR(b, k) && forall q :: q <= k ==> !BlankFrom(b, i, count, q)
    case Partial => (forall k :: i <= k ==> !LoneCR(b, k)) && forall q :: !BlankFrom(b, i, count, q)
  }

  /** Past an octet that ends no line. */
  lemma BlankPastText(b: seq<byte>, i: nat, count: int, q: int)
    requires i < |b| && b[i] != 13 && b[i] != 10
    ensures BlankFrom(b, i, count, q) <==> BlankFrom(b, i + 1, 0, q)
  {
    if k, j :| i <= k && EolAt(b, k, j) && EolAt(b, j, q) {
      assert i + 1 <= k && EolAt(b, k, j) && EolAt(b, j, q);
    }
    if k, j :| i + 1 <= k && EolAt(b, k, j) && EolAt(b, j, q) {
      assert i <= k && EolAt(b, k, j) && EolAt(b, j, q);
    }
  }

  /** Past a line end. */
  lemma BlankPastEol(b: seq<byte>, i: nat, e: nat, q: int)
    requires EolAt(b, i, e)
    ensures BlankFrom(b, i, 0, q) <==> BlankFrom(b, e, 1, q)
  {
    if k, j :| i <= k && EolAt(b, k, j) && EolAt(b, j, q) {
      if k < e {
        assert j == e;
      } else {
        assert e <= k && EolAt(b, k, j) && EolAt(b, j, q);
      }
    }
    if EolAt(b, e, q) {
      assert i <= i && EolAt(b, i, e) && EolAt(b, e, q);
    }
    if k, j :| e <= k && EolAt(b, k, j) && EolAt(b, j, q) {
      assert i <= k && EolAt(b, k, j) && EolAt(b, j, q);
    }
  }

  lemma BlankNotBefore(b: seq<byte>, i: nat, count: int, q: int)
    requires BlankFrom(b, i, count, q)
    ensures i < q && (b[i] == 13 ==> q >= i + 2)
  {
    if !(count == 1 && EolAt(b, i, q)) {
      var k, j :| i <= k && EolAt(b, k, j) && EolAt(b, j, q);
    }
  }

  lemma MetPastText(b: seq<byte>, i: nat, count: int, r: Scan<()>)
    requires i < |b| && b[i] != 13 && b[i] != 10 && Met(b, i + 1, 0, r)
    ensures Met(b, i, count, r)
  {
    forall q ensures BlankFrom(b, i, count, q) <==> BlankFrom(b, i + 1, 0, q) { BlankPastText(b, i, count, q); }
  }

  lemma MetPastEol(b: seq<byte>, i: nat, e: nat, r: Scan<()>)
    requires EolAt(b, i, e) && Met(b, e, 1, r)
    ensures Met(b, i, 0, r)
  {
    forall q ensures BlankFrom(b, i, 0, q) <==> BlankFrom(b, e, 1, q) { BlankPastEol(b, i, e, q); }
    assert forall k :: i <= k < e ==> !LoneCR(b, k);
  }

  /** A line end at `i` that is not there, or not yet. */
  lemma MetAtCR(b: seq<byte>, i: nat, count: int)
    requires i < |b| && b[i] == 13 && (i + 1 < |b| ==> b[i + 1] != 10)
    ensures Met(b, i, count, if i + 1 < |b| then Bad else Partial)
  {
    forall q | BlankFrom(b, i, count, q) ensures q > i + 1 && i + 1 < |b| {
      BlankNotBefore(b, i, count, q);
      if !(count == 1 && EolAt(b, i, q)) {
        var k, j :| i <= k && EolAt(b, k, j) && EolAt(b, j, q);
      }
    }
    if i + 1 < |b| {
      assert LoneCR(b, i);
    }
  }

  lemma MetAtEnd(b: seq<byte>, count: int)
    ensures Met(b, |b|, count, Partial)
  {
    forall q ensures !BlankFrom(b, |b|, count, q) {}
  }

  lemma MetSecondEol(b: seq<byte>, i: nat, e: nat)
    requires EolAt(b, i, e)
    ensures Met(b, i, 1, At(e, ()))
  {
    forall q | q < e ensures !BlankFrom(b, i, 1, q) {
      if BlankFrom(b, i, 1, q) {
        BlankNotBefore(b, i, 1, q);
      }
    }
    assert forall k :: i <= k < e ==> !LoneCR(b, k);
  }

  /** What the shortcut meets, in any buffer. */
  lemma {:induction false} ShortcutMeets(b: seq<byte>, i: nat, count: nat)
    requires i <= |b| && count < 2
    ensures Met(b, i, count, BlankLine(b, i, count))
    decreases |b| - i
  {
    if i == |b| {
      MetAtEnd(b, count);
    } else if b[i] == CR || b[i] == LF {
      var e := LineEnd(b, i);
      if !e.At? {
        MetAtCR(b, i, count);
      } else {
        LineEndExactly(b, i, e.pos);
        if count == 1 {
          MetSecondEol(b, i, e.pos);
        } else {
          ShortcutMeets(b, e.pos, 1);
          MetPastEol(b, i, e.pos, BlankLine(b, e.pos, 1));
        }
      }
    } else {
      ShortcutMeets(b, i + 1, 0);
      MetPastText(b, i, count, BlankLine(b, i + 1, 0));
    }
  }

  /**
   When a refusal is put off, by positions: something was there before, and from three octets before its end there
   is neither an empty line nor a lone CR.
   */
  lemma RefusedLateExactly(b: seq<byte>, lastLen: nat)
    requires lastLen <= |b|
    ensures var start := if lastLen < 3 then 0 else lastLen - 3;
            RefusedLate(b, lastLen) <==>
            && lastLen > 0 && Request(b).Bad?
            && (forall k :: start <= k ==> !LoneCR(b, k)) && forall p :: !BlankLineAt(b, start, p)
  {
    var start := if lastLen < 3 then 0 else lastLen - 3;
    ShortcutMeets(b, start, 0);
    assert forall p :: BlankFrom(b, start, 0, p) <==> BlankLineAt(b, start, p);
  }
}
