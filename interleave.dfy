/** The other tasks and the interrupts, as seen by one task at its sleep
    points. The kernel is single-CPU and cooperative: state changes behind a
    task's back only while it sleeps. The model gives each run a finite script
    of environment steps; every sleep consumes one step. */
module Interleave {
  import opened BufferState

  datatype Step =
      /** The driver of this major completes its current request (end_request). */
    | Retire(major: int, uptodate: bool)
      /** Other tasks changed the buffer pool to this state (adopted only when
          it satisfies BufferState.Rely). */
    | CacheChange(p: PoolState)

  class Env {
    var steps: seq<Step>

    constructor (script: seq<Step>)
      ensures steps == script
    {
      steps := script;
    }
  }
}
