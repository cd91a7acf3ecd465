/** The metric that stands for an unreachable destination (babeld/babeld.h). */
module BabelMetric {
  const INFINITY: nat := 0xFFFF
}
