/** The errors the deployment run raises; each aborts the whole run. */
module Errors {
  import opened Wrappers

  datatype DeployError =
      /** No `manifest` child in a package's info document. */
    | MissingVersionInfo(package: string)
      /** A specification version LooseVersion cannot compare (absent, empty, or not dotted-numeric). */
    | VersionNotComparable(package: string, vstring: Option<string>)
      /** An incoming package does not have a strictly greater version than the one it would replace. */
    | VersionConflict(deploying: string, deployingVersion: string, existing: string, existingVersion: string)
      /** The generated catalog does not conform to the autoupdate catalog DTD. */
    | CatalogValidationFailed
      /** A release argument that does not start with `[0-9]+\.[0-9]+`. */
    | BadRelease(release: string)
}

/** An NBM package reduced to its file name, its byte size and its `Info/info.xml` document. */
module Package {
  import opened Wrappers
  import opened Xml
  import opened Errors
  import opened Version

  const SpecVersionAttr := "OpenIDE-Module-Specification-Version"

  datatype Pkg = Pkg(name: string, size: nat, info: Element)

  /** `get_codenamebase`: the root's `codenamebase` attribute, `None` when absent. */
  function Codename(p: Pkg): (r: Option<string>)
    ensures r.Some? <==> "codenamebase" in p.info.attrs
    ensures r.Some? ==> r.value == p.info.attrs["codenamebase"]
  {
    Attr(p.info, "codenamebase")
  }

  /** `get_specification_version`: the version attribute of the FIRST direct child tagged
      `manifest` (possibly absent); fails when no child is tagged `manifest`. */
  function SpecificationVersion(p: Pkg): (r: Result<Option<string>, DeployError>)
    ensures r.Failure? <==> forall j | 0 <= j < |p.info.children| :: p.info.children[j].tag != "manifest"
    ensures r.Failure? ==> r.error == MissingVersionInfo(p.name)
    ensures r.Success? ==>
      exists i | 0 <= i < |p.info.children| ::
        && p.info.children[i].tag == "manifest"
        && (forall j | 0 <= j < i :: p.info.children[j].tag != "manifest")
        && r.value == Attr(p.info.children[i], SpecVersionAttr)
  {
    match FirstTagged(p.info.children, "manifest")
    case None => Failure(MissingVersionInfo(p.name))
    case Some(i) => Success(Attr(p.info.children[i], SpecVersionAttr))
  }

  /** The comparable version of a package, when it has one. */
  function SpecVersion(p: Pkg): Option<Version>
  {
    match SpecificationVersion(p)
    case Failure(_) => None
    case Success(vstring) => Parse(vstring)
  }

  /** `str(LooseVersion(...))`: the version text as declared, used in report and error lines. */
  function VersionText(p: Pkg): string
  {
    match SpecificationVersion(p)
    case Success(Some(s)) => s
    case _ => ""
  }
}
