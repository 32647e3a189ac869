/** The tunables the simulator reads, as one immutable record handed to it
    at construction. */
module Settings {

  datatype Config = Config(
    msPerCycle: int,
    maxStackSize: int,
    maxThreadCount: int,
    randomNoisePerCycle: int,
    newThreadsPerCycle: int,
    spawnLifeSpan: int,
    copySlice: int,
    haltSlice: int,
    pushSlice: int,
    spawnSlice: int,
    reverseEnabled: bool,
    randomizeMemoryOnInitialize: bool,
    useCopyEffect: bool,
    useThreadDeathEffect: bool,
    useSpawnExpireEffect: bool,
    threadReductionEnabled: bool)
  {
    /** What the simulator needs of the settings: a positive cycle length
        (the drain loop would not end otherwise), sizes that `new int[]`
        and the trim loop accept, and non-negative weights for the draw. */
    predicate Valid() {
      && msPerCycle > 0
      && maxStackSize >= 0
      && maxThreadCount >= 0
      && copySlice >= 0 && haltSlice >= 0 && pushSlice >= 0 && spawnSlice >= 0
    }

    function TotalSlice(): int {
      copySlice + haltSlice + pushSlice + spawnSlice
    }
  }
}
