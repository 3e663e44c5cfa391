/** The autoupdate catalog 2.5 DTD ("-//NetBeans//DTD Autoupdate Catalog 2.5//EN") as a
    structural predicate: element content models, declared and required attributes, and the
    enumerated `(true|false)` attributes. */
module Dtd {
  import opened Xml

  const ModuleAttrs: set<string> := {
    "codenamebase", "homepage", "distribution", "license", "downloadsize", "needsrestart",
    "moduleauthor", "releasedate", "global", "targetcluster", "eager", "autoload" }
  const ModuleRequired: set<string> := {"codenamebase", "distribution", "downloadsize"}
  const ModuleBooleans: set<string> := {"needsrestart", "global", "eager", "autoload"}

  const ManifestAttrs: set<string> := {
    "OpenIDE-Module", "OpenIDE-Module-Name", "OpenIDE-Module-Specification-Version",
    "OpenIDE-Module-Implementation-Version", "OpenIDE-Module-Module-Dependencies",
    "OpenIDE-Module-Package-Dependencies", "OpenIDE-Module-Java-Dependencies",
    "OpenIDE-Module-IDE-Dependencies", "OpenIDE-Module-Short-Description",
    "OpenIDE-Module-Long-Description", "OpenIDE-Module-Display-Category", "OpenIDE-Module-Provides",
    "OpenIDE-Module-Requires", "OpenIDE-Module-Recommends", "OpenIDE-Module-Needs",
    "AutoUpdate-Show-In-Client", "AutoUpdate-Essential-Module" }
  const ManifestRequired: set<string> := {
    "OpenIDE-Module", "OpenIDE-Module-Name", "OpenIDE-Module-Specification-Version" }
  const ManifestBooleans: set<string> := {"AutoUpdate-Show-In-Client", "AutoUpdate-Essential-Module"}

  const ExternalPackageAttrs: set<string> := {"name", "target_name", "start_url", "description"}
  const ExternalPackageRequired: set<string> := {"name", "target_name", "start_url"}

  const L10nAttrs: set<string> := {
    "langcode", "brandingcode", "module_spec_version", "module_major_version",
    "OpenIDE-Module-Name", "OpenIDE-Module-Long-Description" }

  /** An ATTLIST: only declared attributes, every #REQUIRED one present, enumerations respected. */
  predicate AttrsConform(e: Element, declared: set<string>, required: set<string>, booleans: set<string>) {
    && e.attrs.Keys <= declared
    && required <= e.attrs.Keys
    && forall k | k in booleans && k in e.attrs :: e.attrs[k] == "true" || e.attrs[k] == "false"
  }

  predicate IsWhitespace(c: char) {
    c == ' ' || c == '\t' || c == '\n' || c == '\r'
  }

  /** Element-only content admits whitespace between the children and nothing else. */
  predicate WhitespaceOnly(s: string) {
    forall i | 0 <= i < |s| :: IsWhitespace(s[i])
  }

  /** `EMPTY` content. */
  predicate NoContent(e: Element) {
    |e.children| == 0 && e.text == ""
  }

  /** `(#PCDATA)` content. */
  predicate TextContent(e: Element) {
    |e.children| == 0
  }

  predicate ValidManifest(e: Element) {
    e.tag == "manifest" && NoContent(e) && AttrsConform(e, ManifestAttrs, ManifestRequired, ManifestBooleans)
  }

  predicate ValidL10n(e: Element) {
    e.tag == "l10n" && NoContent(e) && AttrsConform(e, L10nAttrs, {}, {})
  }

  predicate ValidExternalPackage(e: Element) {
    e.tag == "external_package" && NoContent(e) && AttrsConform(e, ExternalPackageAttrs, ExternalPackageRequired, {})
  }

  predicate ValidTextElement(e: Element, tag: string) {
    e.tag == tag && TextContent(e) && |e.attrs| == 0
  }

  /** Length of the optional leading child tagged `tag` starting at `from` (0 or 1). */
  function Optional(cs: seq<Element>, from: nat, tag: string): nat {
    if from < |cs| && cs[from].tag == tag then 1 else 0
  }

  /** `(description?, module_notification?, external_package*, (manifest | l10n))`. */
  predicate ValidModuleContent(cs: seq<Element>) {
    && |cs| > 0
    && (ValidManifest(cs[|cs| - 1]) || ValidL10n(cs[|cs| - 1]))
    && var body := cs[..|cs| - 1];
       var a := Optional(body, 0, "description");
       var b := a + Optional(body, a, "module_notification");
       && (a == 1 ==> ValidTextElement(body[0], "description"))
       && (b == a + 1 ==> ValidTextElement(body[a], "module_notification"))
       && forall i | b <= i < |body| :: ValidExternalPackage(body[i])
  }

  predicate ValidModule(e: Element) {
    && e.tag == "module"
    && AttrsConform(e, ModuleAttrs, ModuleRequired, ModuleBooleans)
    && WhitespaceOnly(e.text)
    && ValidModuleContent(e.children)
  }

  predicate IsEntryTag(e: Element) {
    e.tag == "module" || e.tag == "module_group"
  }

  /** `module`, or `module_group ((module_group|module)*)` with its required `name`. */
  predicate ValidEntry(e: Element)
    decreases e
  {
    if e.tag == "module_group" then
      && AttrsConform(e, {"name"}, {"name"}, {})
      && WhitespaceOnly(e.text)
      && forall i | 0 <= i < |e.children| :: ValidEntry(e.children[i])
    else ValidModule(e)
  }

  predicate ValidNotification(e: Element) {
    e.tag == "notification" && TextContent(e) && AttrsConform(e, {"url"}, {}, {})
  }

  predicate ValidLicense(e: Element) {
    e.tag == "license" && TextContent(e) && AttrsConform(e, {"name"}, {"name"}, {})
  }

  /** Number of leading children that are `module` or `module_group` entries. */
  function EntryRun(cs: seq<Element>): (k: nat)
    ensures k <= |cs|
    ensures forall i | 0 <= i < k :: IsEntryTag(cs[i])
    ensures k < |cs| ==> !IsEntryTag(cs[k])
  {
    if |cs| == 0 || !IsEntryTag(cs[0]) then 0 else 1 + EntryRun(cs[1..])
  }

  /** `(notification?, (module_group|module)*, license*)`, read left to right as a validating parser does. */
  predicate ValidCatalogContent(cs: seq<Element>) {
    var a := Optional(cs, 0, "notification");
    var b := a + EntryRun(cs[a..]);
    && (a == 1 ==> ValidNotification(cs[0]))
    && (forall i | a <= i < b :: ValidEntry(cs[i]))
    && (forall i | b <= i < |cs| :: ValidLicense(cs[i]))
  }

  /** The document root: `module_updates` with its required `timestamp`. */
  predicate ValidCatalog(e: Element) {
    && e.tag == "module_updates"
    && AttrsConform(e, {"timestamp"}, {"timestamp"}, {})
    && WhitespaceOnly(e.text)
    && ValidCatalogContent(e.children)
  }
}

/** How the catalog content model reads a sequence laid out as notification, modules, licenses. */
module DtdFacts {
  import opened Xml
  import opened Dtd

  lemma {:induction false} EntryRunOf(es: seq<Element>, ls: seq<Element>)
    requires forall i | 0 <= i < |es| :: IsEntryTag(es[i])
    requires |ls| > 0 ==> !IsEntryTag(ls[0])
    ensures EntryRun(es + ls) == |es|
    decreases |es|
  {
    if |es| > 0 {
      assert (es + ls)[1..] == es[1..] + ls;
      EntryRunOf(es[1..], ls);
    } else {
      assert es + ls == ls;
    }
  }

  /** Where the content model splits children laid out as `ns + es + ls`. */
  lemma CatalogLayout(ns: seq<Element>, es: seq<Element>, ls: seq<Element>)
    requires |ns| <= 1 && (|ns| == 1 ==> ns[0].tag == "notification")
    requires forall i | 0 <= i < |es| :: es[i].tag == "module"
    requires forall k | 0 <= k < |ls| :: ls[k].tag == "license"
    ensures Optional(ns + es + ls, 0, "notification") == |ns|
    ensures EntryRun((ns + es + ls)[|ns|..]) == |es|
  {
    var cs := ns + es + ls;
    if |ns| == 0 && |cs| > 0 {
      assert cs[0] == if |es| > 0 then es[0] else ls[0];
    }
    assert cs[|ns|..] == es + ls;
    EntryRunOf(es, ls);
  }

  lemma EntryIsModule(e: Element)
    requires e.tag == "module"
    ensures ValidEntry(e) == ValidModule(e)
  {
  }

  /** In a valid content model laid out as `ns + es + ls`, each module entry is valid ... */
  lemma EntriesSound(ns: seq<Element>, es: seq<Element>, ls: seq<Element>)
    requires |ns| <= 1 && (|ns| == 1 ==> ns[0].tag == "notification")
    requires forall i | 0 <= i < |es| :: es[i].tag == "module"
    requires forall k | 0 <= k < |ls| :: ls[k].tag == "license"
    requires ValidCatalogContent(ns + es + ls)
    ensures forall i | 0 <= i < |es| :: ValidModule(es[i])
  {
    var cs := ns + es + ls;
    CatalogLayout(ns, es, ls);
    forall i | 0 <= i < |es|
      ensures ValidModule(es[i])
    {
      assert cs[|ns| + i] == es[i];
      EntryIsModule(es[i]);
    }
  }

  /** ... each license is valid ... */
  lemma LicensesSound(ns: seq<Element>, es: seq<Element>, ls: seq<Element>)
    requires |ns| <= 1 && (|ns| == 1 ==> ns[0].tag == "notification")
    requires forall i | 0 <= i < |es| :: es[i].tag == "module"
    requires forall k | 0 <= k < |ls| :: ls[k].tag == "license"
    requires ValidCatalogContent(ns + es + ls)
    ensures forall k | 0 <= k < |ls| :: ValidLicense(ls[k])
  {
    var cs := ns + es + ls;
    CatalogLayout(ns, es, ls);
    forall k | 0 <= k < |ls|
      ensures ValidLicense(ls[k])
    {
      assert cs[|ns| + |es| + k] == ls[k];
    }
  }

  /** The content model of children laid out as `ns + es + ls` (at most one notification, then
      modules, then licenses) requires each part to be valid. */
  lemma CatalogContentSound(ns: seq<Element>, es: seq<Element>, ls: seq<Element>)
    requires |ns| <= 1 && (|ns| == 1 ==> ns[0].tag == "notification")
    requires forall i | 0 <= i < |es| :: es[i].tag == "module"
    requires forall k | 0 <= k < |ls| :: ls[k].tag == "license"
    requires ValidCatalogContent(ns + es + ls)
    ensures |ns| == 1 ==> ValidNotification(ns[0])
    ensures forall i | 0 <= i < |es| :: ValidModule(es[i])
    ensures forall k | 0 <= k < |ls| :: ValidLicense(ls[k])
  {
    EntriesSound(ns, es, ls);
    LicensesSound(ns, es, ls);
    CatalogLayout(ns, es, ls);
    if |ns| == 1 {
      assert (ns + es + ls)[0] == ns[0];
    }
  }

  /** Valid module entries fill the entry positions with valid entries ... */
  lemma EntriesComplete(ns: seq<Element>, es: seq<Element>, ls: seq<Element>)
    requires forall i | 0 <= i < |es| :: es[i].tag == "module" && ValidModule(es[i])
    ensures forall i | |ns| <= i < |ns| + |es| :: ValidEntry((ns + es + ls)[i])
  {
    var cs := ns + es + ls;
    forall i | |ns| <= i < |ns| + |es|
      ensures ValidEntry(cs[i])
    {
      assert cs[i] == es[i - |ns|];
      EntryIsModule(es[i - |ns|]);
    }
  }

  /** ... and valid licenses fill the remaining positions. */
  lemma LicensesComplete(ns: seq<Element>, es: seq<Element>, ls: seq<Element>)
    requires forall k | 0 <= k < |ls| :: ValidLicense(ls[k])
    ensures forall i | |ns| + |es| <= i < |ns| + |es| + |ls| :: ValidLicense((ns + es + ls)[i])
  {
    var cs := ns + es + ls;
    forall i | |ns| + |es| <= i < |cs|
      ensures ValidLicense(cs[i])
    {
      assert cs[i] == ls[i - |ns| - |es|];
    }
  }

  /** ... so valid parts make a valid content model. */
  lemma CatalogContentComplete(ns: seq<Element>, es: seq<Element>, ls: seq<Element>)
    requires |ns| <= 1 && (|ns| == 1 ==> ns[0].tag == "notification")
    requires forall i | 0 <= i < |es| :: es[i].tag == "module"
    requires forall k | 0 <= k < |ls| :: ls[k].tag == "license"
    requires |ns| == 1 ==> ValidNotification(ns[0])
    requires forall i | 0 <= i < |es| :: ValidModule(es[i])
    requires forall k | 0 <= k < |ls| :: ValidLicense(ls[k])
    ensures ValidCatalogContent(ns + es + ls)
  {
    CatalogLayout(ns, es, ls);
    EntriesComplete(ns, es, ls);
    LicensesComplete(ns, es, ls);
    if |ns| == 1 {
      assert (ns + es + ls)[0] == ns[0];
    }
  }
}
