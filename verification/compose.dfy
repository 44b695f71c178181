/** The parsed Compose documents as far as target discovery looks at them.
    YAML parsing is not modelled: a document arrives already parsed, and
    every value the discovery code only tests for its type is reduced to
    that type. */
module Compose {

  /** A YAML node whose only interesting property is whether it is a string. */
  datatype Value = Null | Str(s: string) | Other

  /** The `labels:` of a service. The mapping form carries each key and value
      already rendered by Python's `str()`, in the mapping's order. */
  datatype RawLabels =
    | NoLabels
    | DictLabels(entries: seq<(string, string)>)
    | ListLabels(items: seq<Value>)
    | OtherLabels

  /** The value of one entry under `services:`; only a mapping is a service. */
  datatype ServiceBody =
    | NotAService
    | ServiceMap(labels: RawLabels, containerName: Value)

  /** One entry under `services:`, keyed by the service's name as `str()` renders it. */
  datatype Service = Service(name: string, body: ServiceBody)

  /** The `include:` entry of a document: absent, a list, or anything else. */
  datatype Includes = NoInclude | IncludeList(items: seq<Value>) | IncludeNotList

  /** The `services:` entry of a document: a mapping, or absent or anything else. */
  datatype Services = ServiceMapping(entries: seq<Service>) | NoServices

  /** A loaded file: a top-level mapping, or anything else (including a file
      that failed to parse). */
  datatype Document = NoDocument | Mapping(includes: Includes, services: Services)
}
