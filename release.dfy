/**
 * The checksum kinds of repository release files (`ChecksumType` in
 * `repository::release`). The type is all this model needs of that module.
 */
module Release {

  datatype ChecksumType = Md5 | Sha1 | Sha256
}
