/**
 * The world outside the JVM that the fetcher touches: the network it reads
 * from, the working directory and temp directory it writes to, the handles it
 * holds open, and the Maven repository it deploys to.
 */
module Environment {
  import opened Wrappers

  type Bytes = seq<bv8>

  /** A path-to-contents view of a directory tree. */
  type Files = map<string, Bytes>

  /**
   * What reading a URL's body yields: all of it, or a prefix before the
   * connection broke.
   */
  datatype Download = Complete(bytes: Bytes) | Broken(received: Bytes)

  /**
   * The network as the program sees it: the text served at each checksum URL
   * and the body served at each download URL. A URL absent from the map is one
   * whose `openStream` throws.
   */
  datatype Network = Network(texts: map<string, string>, bodies: map<string, Download>)

  /** A resource the program opens and must close again. */
  datatype Handle =
    | ZipHandle(path: string)
    | EntryStream(path: string, entry: string)
    | FileOut(path: string)

  /** The system properties of one `deploy:deploy-file` invocation. */
  datatype Deployment = Deployment(
    pom: Bytes,
    jar: Bytes,
    sources: Bytes,
    repositoryId: string,
    url: string)

  /**
   * The mutable world: files beside the program (`files`), files in the system
   * temp directory (`temps`), the handles currently open, and the deployments
   * Maven was asked to perform, in order.
   */
  class Host {
    var files: Files
    var temps: Files
    var handles: multiset<Handle>
    var deployments: seq<Deployment>

    constructor(files: Files, temps: Files)
      ensures this.files == files && this.temps == temps
      ensures handles == multiset{} && deployments == []
    {
      this.files := files;
      this.temps := temps;
      handles := multiset{};
      deployments := [];
    }
  }
}
