/** The values the relauncher receives from its release catalog and version resolver. */
module Catalog {

  /** One release of the loader as the catalog lists it; the list is newest first. */
  datatype Release = Release(name: string, tagName: string)

  /**
   * What resolving (and downloading) a release yields: the class to start and
   * the local paths of its libraries and native libraries, in resolver order.
   */
  datatype VersionDescriptor = VersionDescriptor(
    mainClass: string,
    libraryPaths: seq<string>,
    nativesPaths: seq<string>)
}
