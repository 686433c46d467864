/** Food placement by rejection sampling. The random source is injected:
    `draws` is the sequence of positions the two `randint` calls would
    produce, in order, one draw per retry. */
module Food {
  import opened Geometry

  /** Some draw misses the occupied cells, so the retry loop stops. */
  predicate HasFreeDraw(draws: seq<Cell>, occupied: seq<Cell>) {
    exists k :: 0 <= k < |draws| && draws[k] !in occupied
  }

  /** Draw `k` is the first one that misses the occupied cells. */
  predicate IsFirstFree(draws: seq<Cell>, occupied: seq<Cell>, k: int) {
    0 <= k < |draws| && draws[k] !in occupied &&
    forall j :: 0 <= j < k ==> draws[j] in occupied
  }

  lemma FreeDrawInTail(draws: seq<Cell>, occupied: seq<Cell>)
    requires HasFreeDraw(draws, occupied) && draws[0] in occupied
    ensures HasFreeDraw(draws[1..], occupied)
  {
    var k :| 0 <= k < |draws| && draws[k] !in occupied;
    assert draws[1..][k - 1] == draws[k];
  }

  /** The cell the rejection loop settles on: the first draw not occupied. */
  function FirstFree(draws: seq<Cell>, occupied: seq<Cell>): (r: Cell)
    requires HasFreeDraw(draws, occupied)
    ensures r in draws && r !in occupied
    ensures exists k :: IsFirstFree(draws, occupied, k) && draws[k] == r
    decreases |draws|
  {
    if draws[0] !in occupied then
      assert IsFirstFree(draws, occupied, 0);
      draws[0]
    else
      FreeDrawInTail(draws, occupied);
      var r := FirstFree(draws[1..], occupied);
      var k :| IsFirstFree(draws[1..], occupied, k) && draws[1..][k] == r;
      assert IsFirstFree(draws, occupied, k + 1);
      r
  }

  /** There is only one first free draw. */
  lemma FirstFreeUnique(draws: seq<Cell>, occupied: seq<Cell>, k: int)
    requires IsFirstFree(draws, occupied, k)
    ensures HasFreeDraw(draws, occupied) && FirstFree(draws, occupied) == draws[k]
  {
    var r := FirstFree(draws, occupied);
    var k' :| IsFirstFree(draws, occupied, k') && draws[k'] == r;
  }

  /** A stream of interior draws can only satisfy the loop when the board
      has a free interior cell, and any free interior cell makes a
      one-draw stream that does. */
  lemma FreeDrawNeedsFreeCell(draws: seq<Cell>, occupied: seq<Cell>, height: int, width: int)
    requires AllInterior(draws, height, width) && HasFreeDraw(draws, occupied)
    ensures exists c :: Interior(c, height, width) && c !in occupied
  {
    var k :| 0 <= k < |draws| && draws[k] !in occupied;
    assert Interior(draws[k], height, width);
  }

  lemma FreeCellGivesFreeDraw(c: Cell, occupied: seq<Cell>, height: int, width: int)
    requires Interior(c, height, width) && c !in occupied
    ensures AllInterior([c], height, width) && HasFreeDraw([c], occupied)
  {
    assert [c][0] == c;
  }

  /** The retry loop: take draws in order and return the first one that is
      not occupied. */
  method Sample(height: int, width: int, occupied: seq<Cell>, draws: seq<Cell>) returns (food: Cell)
    requires AllInterior(draws, height, width)
    requires HasFreeDraw(draws, occupied)
    ensures Interior(food, height, width) && food !in occupied
    ensures food == FirstFree(draws, occupied)
  {
    var i := 0;
    while true
      invariant 0 <= i <= |draws|
      invariant forall j :: 0 <= j < i ==> draws[j] in occupied
      invariant exists k :: i <= k < |draws| && draws[k] !in occupied
      decreases |draws| - i
    {
      food := draws[i];
      if food !in occupied {
        FirstFreeUnique(draws, occupied, i);
        return;
      }
      i := i + 1;
    }
  }
}
