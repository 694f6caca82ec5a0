/** Token and pool addresses: an opaque type with equality, already normalised. */
module Addresses {
  type Address = string
}
