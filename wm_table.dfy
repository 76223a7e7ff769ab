/**
  The name of a window message, looked up by bisection in a table of
  (id, name) entries sorted by id.  The table's contents are not part of
  this model: the lookup takes any table as a parameter.
*/
module WindowMessages {

  datatype Entry = Entry(id: int, name: string)

  const NO_SUCH_MESSAGE: string := "ERROR - no such window message"

  predicate SortedById(table: seq<Entry>) {
    forall j, k | 0 <= j < k < |table| :: table[j].id <= table[k].id
  }

  /** `bottom + top` is computed in a 32-bit `int`. */
  const INT_HALF_RANGE: int := 0x4000_0000

  /** `StringFromWindowMessage(wm)`: bisects [bottom, top), moving `top` to
      the probe when `wm` is below it and `bottom` to the probe when above,
      and gives up once the next probe would be the same place. */
  method StringFromWindowMessage(table: seq<Entry>, wm: int) returns (result: string)
    requires 0 < |table| < INT_HALF_RANGE && SortedById(table)
    ensures (exists j | 0 <= j < |table| :: table[j].id == wm) ==>
      exists j | 0 <= j < |table| :: table[j].id == wm && result == table[j].name
    ensures (forall j | 0 <= j < |table| :: table[j].id != wm) ==> result == NO_SUCH_MESSAGE
  {
    result := NO_SUCH_MESSAGE;
    var keepSearching := true;
    var bottom := 0;
    var top := |table|;
    while keepSearching
      invariant keepSearching ==> 0 <= bottom < top <= |table|
      invariant keepSearching ==> result == NO_SUCH_MESSAGE
      invariant keepSearching ==> forall j | 0 <= j < |table| && table[j].id == wm :: bottom <= j < top
      invariant !keepSearching ==>
        (exists j | 0 <= j < |table| :: table[j].id == wm && result == table[j].name) ||
        (result == NO_SUCH_MESSAGE && forall j | 0 <= j < |table| :: table[j].id != wm)
      decreases keepSearching, top - bottom
    {
      var i := (bottom + top) / 2;
      if table[i].id == wm {
        result := table[i].name;
        keepSearching := false;
      } else if wm < table[i].id {
        var nextI := (bottom + i) / 2;
        if i == nextI {
          // The range was [i, i + 1).
          keepSearching := false;
        } else {
          top := i;
          i := nextI;
        }
      } else if wm > table[i].id {
        var nextI := (i + top) / 2;
        if i == nextI {
          // The range was [i, i + 1), or [i - 1, i + 1) with table[i - 1].id <= table[i].id.
          keepSearching := false;
        } else {
          bottom := i;
          i := nextI;
        }
      }
    }
  }
}
