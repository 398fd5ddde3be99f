/** The info files the generator scripts write: a name and the top-level fields of the JSON document. */
module InfoFiles {
  import opened JsonData

  /** An info file a script tries to write. */
  datatype Written = Written(name: string, doc: Fields)

  /** A chat as the JSON list it is dumped as. */
  function Messages(chat: seq<Fields>): (r: Json)
    ensures r.JList? && |r.items| == |chat|
    ensures forall i :: 0 <= i < |chat| ==> r.items[i] == JObj(chat[i])
  {
    JList(seq(|chat|, i requires 0 <= i < |chat| => JObj(chat[i])))
  }

  /** How many of the attempted files could be saved; `canWrite` stands for the file system. */
  function CountWritten(attempts: seq<Written>, canWrite: string -> bool): (r: nat)
    ensures r <= |attempts|
    ensures r > 0 <==> exists i :: 0 <= i < |attempts| && canWrite(attempts[i].name)
    decreases |attempts|
  {
    if |attempts| == 0 then 0
    else
      var n := |attempts|;
      var rest := CountWritten(attempts[..n - 1], canWrite);
      assert forall i :: 0 <= i < n - 1 ==> attempts[..n - 1][i] == attempts[i];
      rest + (if canWrite(attempts[n - 1].name) then 1 else 0)
  }
}
