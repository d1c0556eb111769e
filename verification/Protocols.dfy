/** The protocol numbers headers and proxy data carry. */
module Protocols {
  const IPV4 := 4
  const IPV6 := 6
  const TCP := 6
  const UDP := 17
}
