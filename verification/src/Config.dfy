/** Constants that several components share. */
module Config {

  /** Number of virtual terminals. */
  const TTYS := 3
}
