/**
 What the system answers to reads and writes. The answers are fixed from the start, one for
 every call, so that a method can neither choose them nor claim others.
 */
module Syscalls {
  import opened Bytes

  /** The answer to the k-th call; it fails if it is below zero. */
  type Answers = nat -> int

  ghost predicate NoFault(answers: Answers) {
    forall k: nat :: answers(k) >= 0
  }

  /** What a read that does not fail delivers of `left` bytes: not more than it asks for, but some of them. */
  function Delivered(answer: int, size: nat, left: nat): nat {
    if answer < 1 then Min(1, Min(size, left)) else Min(answer, Min(size, left))
  }

  /** What a write of `size` bytes returns: how many of them were written, or -1. */
  function Wrote(answer: int, size: nat): int {
    if answer < 0 then -1 else Min(answer, size)
  }
}
