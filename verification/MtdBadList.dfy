/** `mtd_find_write_start` of flash/src/mtd_flash.c: one pass over the list of bad offsets in
    search of the first free block, and exactly when that pass is right. */
module MtdBadList {
  import opened MtdChip

  /** The pass over the list: step over pos when it is found, stop at the first larger entry. */
  function FindStart(bad: seq<int>, pos: int, e: nat): int {
    if bad == [] then pos
    else if bad[0] == pos then FindStart(bad[1..], pos + e, e)
    else if bad[0] > pos then pos
    else FindStart(bad[1..], pos, e)
  }

  /** What it is for: the first of pos, pos + e, pos + 2e, ... that is not in the list. */
  function FirstFree(bad: seq<int>, pos: int, e: nat): (r: int)
    requires 0 < e
    ensures pos <= r && r !in bad
    decreases Above(bad, pos)
  {
    if pos in bad then AboveShrinks(bad, pos, pos + e); FirstFree(bad, pos + e, e) else pos
  }

  function Above(bad: seq<int>, pos: int): set<int> {
    set x | x in bad && x >= pos
  }

  lemma AboveShrinks(bad: seq<int>, pos: int, next: int)
    requires pos in bad && pos < next
    ensures Above(bad, next) < Above(bad, pos)
  {
    assert pos in Above(bad, pos) && pos !in Above(bad, next);
  }

  /** No entry before the first occurrence of q is larger than q. */
  ghost predicate InTurn(bad: seq<int>, q: int) {
    forall i, j :: 0 <= i < j < |bad| && bad[j] == q && q !in bad[..j] ==> bad[i] < q
  }

  /** Each of pos, pos + e, ... up to the first free one comes in turn. */
  ghost predicate AllInTurn(bad: seq<int>, pos: int, e: nat)
    requires 0 < e
  {
    forall q :: pos <= q < FirstFree(bad, pos, e) && Multiple(q - pos, e) ==> InTurn(bad, q)
  }

  lemma AllInTurnNext(bad: seq<int>, pos: int, e: nat)
    requires 0 < e && pos in bad && AllInTurn(bad, pos, e)
    ensures AllInTurn(bad, pos + e, e)
  {
    forall q | pos + e <= q < FirstFree(bad, pos + e, e) && Multiple(q - pos - e, e) ensures InTurn(bad, q) {
      assert Multiple(q - pos, e);
    }
  }

  /** From index i on, with every entry before i already below pos, the pass is right. */
  lemma {:induction false} TurnsFind(bad: seq<int>, i: nat, pos: int, e: nat)
    requires 0 < e && i <= |bad| && AllInTurn(bad, pos, e)
    requires forall k :: 0 <= k < i ==> bad[k] < pos
    ensures FindStart(bad[i..], pos, e) == FirstFree(bad, pos, e)
    decreases |bad| - i
  {
    hide AllInTurn, InTurn;
    if i < |bad| {
      assert bad[i..][1..] == bad[i + 1..];
      if bad[i] == pos {
        AllInTurnNext(bad, pos, e);
        TurnsFind(bad, i + 1, pos + e, e);
      } else if bad[i] < pos {
        TurnsFind(bad, i + 1, pos, e);
      } else if pos in bad {
        NotInTurn(bad, i, pos, e);
        assert false;
      }
    }
  }

  lemma NotInTurn(bad: seq<int>, i: nat, pos: int, e: nat)
    requires 0 < e && i < |bad| && pos in bad && pos < bad[i] && forall k :: 0 <= k < i ==> bad[k] < pos
    ensures !AllInTurn(bad, pos, e)
  {
    var j := FirstIndex(bad, pos);
    assert Multiple(pos - pos, e);
    assert !InTurn(bad, pos);
  }

  lemma {:induction false} FirstIndex(bad: seq<int>, x: int) returns (j: nat)
    requires x in bad
    ensures j < |bad| && bad[j] == x && x !in bad[..j]
  {
    if bad[0] == x {
      j := 0;
    } else {
      var k := FirstIndex(bad[1..], x);
      j := k + 1;
      assert bad[..j] == [bad[0]] + bad[1..][..k];
    }
  }

  /** The pass gets no further than q if an entry larger than q comes before q does. */
  lemma {:induction false} StopsEarly(bad: seq<int>, i: nat, pos: int, q: int, e: nat)
    requires 0 < e && pos <= q && Multiple(q - pos, e)
    requires i < |bad| && bad[i] > q && forall k :: 0 <= k < i ==> bad[k] != q
    ensures FindStart(bad, pos, e) <= q
    decreases i
  {
    if i > 0 && bad[0] <= pos {
      StopsEarly(bad[1..], i - 1, if bad[0] == pos then pos + e else pos, q, e);
    }
  }

  /** From pos, `mtd_find_write_start` returns the first free offset if and only if each of pos,
      pos + e, ... up to that one has, where it first occurs, no larger entry before it. */
  lemma FindStartIsRightIff(bad: seq<int>, pos: int, e: nat)
    requires 0 < e
    ensures FindStart(bad, pos, e) == FirstFree(bad, pos, e) <==> AllInTurn(bad, pos, e)
  {
    if AllInTurn(bad, pos, e) {
      assert bad[0..] == bad;
      TurnsFind(bad, 0, pos, e);
    } else {
      var q :| pos <= q < FirstFree(bad, pos, e) && Multiple(q - pos, e) && !InTurn(bad, q);
      var i, j :| 0 <= i < j < |bad| && bad[j] == q && q !in bad[..j] && bad[i] >= q;
      assert forall k :: 0 <= k < j ==> bad[k] == bad[..j][k];
      StopsEarly(bad, i, pos, q, e);
    }
  }

  /** For a set of starting offsets closed under stepping to the next block the pass is always
      right if and only if each of these offsets comes in turn. */
  lemma FindStartIsRightAtAllIff(bad: seq<int>, at: int -> bool, e: nat)
    requires 0 < e && forall p :: at(p) ==> at(p + e)
    ensures (forall pos :: at(pos) ==> FindStart(bad, pos, e) == FirstFree(bad, pos, e)) <==>
            (forall q :: at(q) ==> InTurn(bad, q))
  {
    hide FindStart, FirstFree, InTurn;
    if forall q :: at(q) ==> InTurn(bad, q) {
      forall pos | at(pos) ensures FindStart(bad, pos, e) == FirstFree(bad, pos, e) {
        forall q | pos <= q && Multiple(q - pos, e) ensures at(q) {
          ClosedUnderSteps(at, pos, q, e);
        }
        FindStartIsRightIff(bad, pos, e);
      }
    } else {
      var q :| at(q) && !InTurn(bad, q);
      NotInTurnIsIn(bad, q, e);
      FindStartIsRightIff(bad, q, e);
      assert Multiple(q - q, e);
    }
  }

  lemma NotInTurnIsIn(bad: seq<int>, q: int, e: nat)
    requires 0 < e && !InTurn(bad, q)
    ensures q < FirstFree(bad, q, e)
  {
    assert q in bad;
  }

  lemma {:induction false} ClosedUnderSteps(at: int -> bool, pos: int, q: int, e: nat)
    requires 0 < e && (forall p :: at(p) ==> at(p + e)) && at(pos) && pos <= q && Multiple(q - pos, e)
    ensures at(q)
    decreases q - pos
  {
    if pos < q {
      ClosedUnderSteps(at, pos + e, q, e);
    }
  }

  /** A list as failed writes can leave it: an offset that is no block offset is recorded after
      larger ones, and the pass from there then returns a recorded offset. */
  lemma OutOfOrderListMisleads()
    ensures FindStart([0, 4, 2], 2, 4) == 2 && FirstFree([0, 4, 2], 2, 4) == 6
  {
    var bad := [0, 4, 2];
    assert FirstFree(bad, 2, 4) == FirstFree(bad, 6, 4);
  }
}
