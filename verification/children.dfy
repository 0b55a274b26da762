/**
 * get_child_process (userprog/process.c): look up a child of the current
 * thread by its thread id in the thread's list of children.
 */
module Children {
  import opened Wrappers

  /** A child thread as the lookup sees it: its thread id (tid_t, an int). */
  datatype Thread = Thread(tid: int)

  /** Whether some child in the list has thread id `pid`. */
  predicate HasChild(children: seq<Thread>, pid: int)
  {
    exists i :: 0 <= i < |children| && children[i].tid == pid
  }

  /**
   * Walk the children list from its head and return the position of the
   * first child whose tid is `pid`; none when the list is empty or no child
   * matches.
   */
  method GetChildProcess(children: seq<Thread>, pid: int) returns (r: Option<nat>)
    ensures r.None? <==> !HasChild(children, pid)
    ensures r.Some? ==> r.value < |children| && children[r.value].tid == pid
    ensures r.Some? ==> forall j :: 0 <= j < r.value ==> children[j].tid != pid
  {
    if |children| == 0 {
      return None;
    }
    var i := 0;
    while i < |children|
      invariant 0 <= i <= |children|
      invariant forall j :: 0 <= j < i ==> children[j].tid != pid
    {
      if children[i].tid == pid {
        return Some(i);
      }
      i := i + 1;
    }
    return None;
  }
}
