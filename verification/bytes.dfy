/** The byte type shared by the cipher, the hash and the checksum trailer. */
module Bytes {

  /** A byte of a `std::string`, taken as unsigned, as the source's
      `static_cast<unsigned char>` does. */
  type Byte = bv8
}
