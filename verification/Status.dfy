/** The kernel's status codes; calls return them negated. */
module Status {
  const EIO := 1
  const EINVARG := 2
  const ENOMEM := 3
  const EBADPATH := 4
  const EINVELFTYPE := 9
}
