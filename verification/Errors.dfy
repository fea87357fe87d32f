/** The `errno` values the file moves tell apart. `EIO` stands for every other. */
module Errors {
  datatype Errno = EXDEV | EPERM | EOPNOTSUPP | EMLINK | EISDIR | EEXIST | ENOENT | EIO
}
