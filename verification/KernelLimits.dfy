/** Sizes of the kernel's tables (mp3/student-distrib). */
module KernelLimits {
  const NUM_MAX_PROCESSES := 6
  const NUM_TERMINALS := 3
}
