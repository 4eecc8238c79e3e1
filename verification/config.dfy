/**
 * The emulator's configuration after XML parsing: lists of broker, artifact and stakeholder
 * declarations, each field already taken out of the one-element array xml2js wraps it in.
 * A list the XML leaves out is the empty sequence.
 */
module Config {

  datatype BrokerDecl = BrokerDecl(host: string, port: string, user: string, password: string)

  datatype ArtifactDecl = ArtifactDecl(
    name: string, id: string, host: string, port: string, streamFilePath: string)

  datatype StakeholderDecl = StakeholderDecl(
    name: string, processInstance: string, host: string, port: string, streamFilePath: string)

  datatype Configuration = Configuration(
    brokers: seq<BrokerDecl>, artifacts: seq<ArtifactDecl>, stakeholders: seq<StakeholderDecl>)
}
