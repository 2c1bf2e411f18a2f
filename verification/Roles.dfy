/** The launcher's two children. */
module Roles {
  datatype Role = Signer | Frontend
}
