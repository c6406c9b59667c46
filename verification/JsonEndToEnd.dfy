/** The printer and the tokener together, objects and all. */
module JsonEndToEnd {
  import opened Wrappers
  import opened JsonValue
  import opened JsonMachine
  import JsonParse
  import JsonHeap
  import JsonPrinter
  import JsonTokener
  import JsonRoundTrip

  /** Printing a value into a buffer and parsing the buffer rebuilds it as a heap of objects with one owner each,
      unless it nests too deep, and then nothing is left behind. */
  method PrintThenParse(v: Json) returns (err: Error, r: JsonHeap.Ref, heap: JsonHeap.Heap, ghost t: JsonHeap.Tree)
    requires Exact(v)
    ensures Levels(v) <= MAX_DEPTH ==>
              && err == Success && r == JsonHeap.RefOf(t)
              && heap.cells == JsonHeap.CellsOf(t) && JsonHeap.Value(t) == v
    ensures Levels(v) > MAX_DEPTH ==> err == TooDeep && r == None && heap.cells == map[]
  {
    hide JsonHeap.CellsOf, JsonHeap.Value, Print, Levels, JsonParse.ParseText;
    var pb := new JsonPrinter.PrintBuf();
    pb.ToJsonString(v);
    assert "" + Print(v) == Print(v);
    JsonRoundTrip.RoundTrip(v);
    err, r, heap, t := JsonTokener.Parse(pb.buf);
  }
}
