/** Kinds of file rows, column 1 of the index. */
module Kinds {
  const K_FILE := 0
  const K_DIR := 1
  const K_SYMLINK := 2
  const K_HARDLINK := 3
}
