/** The worker-count policy shared by factorial, map and reduce. */
module ThreadPolicy {

  function Min(a: int, b: int): (m: int) { if a <= b then a else b }

  function Max(a: int, b: int): (m: int) { if a >= b then a else b }

  /**
   * The workload clamp: a request above size / divisor is cut down to that
   * quotient, but never below one worker (src/Factorial.java:32-34,
   * src/ParallelCompute.java:22-24 with divisor 4, :67-69 with divisor 2).
   */
  function SizeClamp(requested: int, size: int, divisor: int): (t: int)
    requires requested >= 1 && size >= 0 && divisor >= 1
    ensures t == Min(requested, Max(size / divisor, 1))
    ensures requested <= size / divisor ==> t == requested
  {
    if requested > size / divisor then Max(size / divisor, 1) else requested
  }

  /** The worker count after both clamps: workload first, then the processor count. */
  function EffectiveThreads(requested: int, size: int, divisor: int, procs: int): (t: int)
    requires requested >= 1 && size >= 0 && divisor >= 1 && procs >= 1
    ensures 1 <= t
    ensures t <= requested && t <= Max(size / divisor, 1) && t <= procs
    ensures t == Min(Min(requested, Max(size / divisor, 1)), procs)
    ensures size >= 1 ==> t <= size
  {
    Min(SizeClamp(requested, size, divisor), procs)
  }
}
