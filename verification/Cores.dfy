/** The configuration entry of one core. */
module Cores {

  datatype CoreConf = CoreConf(partyId: nat, address: string, s3Endpoint: string, objectFolder: string)
}
