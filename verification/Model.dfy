/** The normalized inventory: resources, and where each of their attributes comes from. */
module Model {
  import opened Json

  /** The nature of a source. */
  type Origin = string

  const ORIGIN_API: Origin := "api"
  const ORIGIN_DERIVED: Origin := "derived"

  /** Where one attribute comes from, and whether its source really carried it. */
  datatype Attestation = Attestation(origin: Origin, source: string, path: string, observed: bool, derived: bool)

  type Provenance = map<string, Attestation>

  datatype Resource = Resource(
    provider: string,
    typ: string,
    id: string,
    name: string,
    region: string,
    attributes: map<string, Json>,
    provenance: Provenance)
}
