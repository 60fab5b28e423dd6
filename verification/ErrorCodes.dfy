/** The error numbers the modelled calls return or store, with newlib's values. */
module ErrorCodes {
  const EIO := 5
  const EWOULDBLOCK := 11
  const EACCES := 13
  const ENODEV := 19
  const EINVAL := 22
  const EMFILE := 24
  const EBADFD := 81
  const ENOSYS := 88
  const ENOTSUP := 95
}
