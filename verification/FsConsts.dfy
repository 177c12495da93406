/** Constants of fs.h and stat.h that several parts of the file system share. */
module FsConsts {
  const ROOTINO := 1
  const T_DIR := 1
  const T_FILE := 2
  const IPB := 8       // inodes in a block, BSIZE / sizeof(struct dinode)
}
