/** The catalog builder: `get_module_info` and the tree assembled by `generate_updatexml`. */
module Catalog {
  import opened Wrappers
  import opened Xml
  import opened XmlFacts
  import opened Decimal
  import opened Errors
  import opened Package
  import opened Dtd
  import opened DtdFacts

  /** A module entry for the catalog and the license taken out of it. */
  datatype ModuleInfo = ModuleInfo(entry: Element, license: Option<Element>)

  /** The license child `get_module_info` takes out: the last `license` child, if any. */
  function LicenseOf(cs: seq<Element>): (r: Option<Element>)
    ensures r.Some? ==> r.value.tag == "license"
    ensures r.None? <==> forall j | 0 <= j < |cs| :: cs[j].tag != "license"
  {
    match LastTagged(cs, "license")
    case None => None
    case Some(i) => Some(cs[i])
  }

  /** The children left once that license child is taken out. */
  function Unlicensed(cs: seq<Element>): seq<Element>
  {
    match LastTagged(cs, "license")
    case None => cs
    case Some(i) => RemoveAt(cs, i)
  }

  /** `get_module_info`: drop the last `license` child, set `downloadsize` to the file size. */
  function GetModuleInfo(p: Pkg): (r: ModuleInfo)
    ensures r.entry.tag == p.info.tag
    ensures r.license.Some? ==> r.license.value.tag == "license"
  {
    ModuleInfo(Element(p.info.tag, p.info.attrs["downloadsize" := FromNat(p.size)], p.info.text, Unlicensed(p.info.children)),
               LicenseOf(p.info.children))
  }

  /** The module entry is the package's root with only `downloadsize` changed (set to the decimal
      file size) and only its last license child taken out; putting that license back at its
      position restores the original children. */
  lemma ModuleInfoSpec(p: Pkg)
    ensures var r := GetModuleInfo(p);
      && r.entry.text == p.info.text
      && r.entry.attrs.Keys == p.info.attrs.Keys + {"downloadsize"}
      && (forall k | k in p.info.attrs && k != "downloadsize" :: r.entry.attrs[k] == p.info.attrs[k])
      && AllDigits(r.entry.attrs["downloadsize"]) && ValueOf(r.entry.attrs["downloadsize"]) == p.size
      && (r.license.None? <==> forall j | 0 <= j < |p.info.children| :: p.info.children[j].tag != "license")
      && (r.license.None? ==> r.entry.children == p.info.children)
      && (r.license.Some? ==>
            exists i | 0 <= i <= |r.entry.children| ::
              && p.info.children == r.entry.children[..i] + [r.license.value] + r.entry.children[i..]
              && forall j | i <= j < |r.entry.children| :: r.entry.children[j].tag != "license")
  {
    var cs := p.info.children;
    match LastTagged(cs, "license")
    case None =>
    case Some(i) =>
      var rest := RemoveAt(cs, i);
      assert forall j | i <= j < |rest| :: rest[j] == cs[j + 1];
      assert GetModuleInfo(p).entry.children == rest;
  }

  function LicenseName(l: Element): Option<string> {
    Attr(l, "name")
  }

  /** No two licenses in `ls` share a name. */
  predicate NamesDistinct(ls: seq<Element>) {
    forall i, j | 0 <= i < j < |ls| :: LicenseName(ls[i]) != LicenseName(ls[j])
  }

  /** Some license in `ls` carries `name`. */
  predicate HasName(ls: seq<Element>, name: Option<string>) {
    exists k | 0 <= k < |ls| :: LicenseName(ls[k]) == name
  }

  /** The set-membership test of `generate_updatexml`: add `l` unless a license of that name is kept. */
  function AddLicense(kept: seq<Element>, l: Element): (r: seq<Element>)
    ensures kept <= r && |r| <= |kept| + 1
    ensures HasName(r, LicenseName(l))
    ensures |r| == |kept| + 1 <==> !HasName(kept, LicenseName(l))
    ensures !HasName(kept, LicenseName(l)) ==> r == kept + [l]
  {
    if HasName(kept, LicenseName(l)) then kept
    else
      assert (kept + [l])[|kept|] == l;
      kept + [l]
  }

  lemma AddLicenseDistinct(kept: seq<Element>, l: Element)
    requires NamesDistinct(kept)
    ensures NamesDistinct(AddLicense(kept, l))
  {
    if !HasName(kept, LicenseName(l)) {
      var r := kept + [l];
      forall i, j | 0 <= i < j < |r|
        ensures LicenseName(r[i]) != LicenseName(r[j])
      {
        assert r[i] == kept[i];
      }
    }
  }

  /** Licenses deduplicated by name, processed in order. */
  function Dedup(lics: seq<Element>): (r: seq<Element>)
    ensures NamesDistinct(r)
    decreases |lics|
  {
    if |lics| == 0 then []
    else
      var kept := Dedup(lics[..|lics| - 1]);
      AddLicenseDistinct(kept, lics[|lics| - 1]);
      AddLicense(kept, lics[|lics| - 1])
  }

  /** Every license in `seen` has its name among those of `kept`. */
  ghost predicate Covers(kept: seq<Element>, seen: seq<Element>) {
    forall i | 0 <= i < |seen| :: HasName(kept, LicenseName(seen[i]))
  }

  lemma AddLicenseCovers(kept: seq<Element>, seen: seq<Element>, l: Element)
    requires Covers(kept, seen)
    ensures Covers(AddLicense(kept, l), seen + [l])
  {
    var r := AddLicense(kept, l);
    var all := seen + [l];
    forall i | 0 <= i < |all|
      ensures HasName(r, LicenseName(all[i]))
    {
      if i < |seen| {
        assert all[i] == seen[i];
        var k :| 0 <= k < |kept| && LicenseName(kept[k]) == LicenseName(seen[i]);
        assert r[k] == kept[k];
      } else if HasName(kept, LicenseName(l)) {
        var k :| 0 <= k < |kept| && LicenseName(kept[k]) == LicenseName(l);
        assert r[k] == kept[k];
      } else {
        assert r[|kept|] == l;
      }
    }
  }

  /** Every given license has its name kept. */
  lemma {:induction false} DedupCovers(lics: seq<Element>)
    ensures Covers(Dedup(lics), lics)
    decreases |lics|
  {
    if |lics| > 0 {
      var n := |lics| - 1;
      var init := lics[..n];
      DedupCovers(init);
      AddLicenseCovers(Dedup(init), init, lics[n]);
      assert init + [lics[n]] == lics;
    }
  }

  /** Deduplication keeps only given licenses, so it keeps their tag. */
  lemma {:induction false} DedupTagged(lics: seq<Element>, tag: string)
    requires forall i | 0 <= i < |lics| :: lics[i].tag == tag
    ensures forall k | 0 <= k < |Dedup(lics)| :: Dedup(lics)[k].tag == tag
    decreases |lics|
  {
    if |lics| > 0 {
      var n := |lics| - 1;
      var init := lics[..n];
      var kept := Dedup(init);
      assert forall i | 0 <= i < n :: init[i] == lics[i];
      DedupTagged(init, tag);
      assert Dedup(lics) == AddLicense(kept, lics[n]);
    }
  }

  /** No earlier license in `lics` shares the name of `lics[i]`. */
  ghost predicate FirstOfName(lics: seq<Element>, i: nat)
    requires i < |lics|
  {
    forall j | 0 <= j < i :: LicenseName(lics[j]) != LicenseName(lics[i])
  }

  /** `x` is the first license in `lics` with its name. */
  ghost predicate FirstSeen(lics: seq<Element>, x: Element) {
    exists i | 0 <= i < |lics| :: x == lics[i] && FirstOfName(lics, i)
  }

  lemma FirstSeenInPrefix(lics: seq<Element>, n: nat, x: Element)
    requires n <= |lics|
    requires FirstSeen(lics[..n], x)
    ensures FirstSeen(lics, x)
  {
    var i :| 0 <= i < n && x == lics[..n][i] && FirstOfName(lics[..n], i);
    assert forall j | 0 <= j <= i :: lics[j] == lics[..n][j];
    assert x == lics[i] && FirstOfName(lics, i);
  }

  lemma NewNameIsFirst(lics: seq<Element>, kept: seq<Element>)
    requires |lics| > 0
    requires Covers(kept, lics[..|lics| - 1])
    requires !HasName(kept, LicenseName(lics[|lics| - 1]))
    ensures FirstSeen(lics, lics[|lics| - 1])
  {
    var n := |lics| - 1;
    forall j | 0 <= j < n
      ensures LicenseName(lics[j]) != LicenseName(lics[n])
    {
      assert lics[j] == lics[..n][j];
    }
    assert FirstOfName(lics, n);
  }

  /** The license kept for a name is the first one seen with that name. */
  lemma {:induction false} DedupKeepsFirstSeen(lics: seq<Element>)
    ensures forall k | 0 <= k < |Dedup(lics)| :: FirstSeen(lics, Dedup(lics)[k])
    decreases |lics|
  {
    if |lics| > 0 {
      var r := Dedup(lics);
      var n := |lics| - 1;
      var init := lics[..n];
      var kept := Dedup(init);
      DedupKeepsFirstSeen(init);
      var last := lics[n];
      assert r == AddLicense(kept, last);
      forall k | 0 <= k < |r|
        ensures FirstSeen(lics, r[k])
      {
        if k < |kept| {
          assert r[k] == kept[k];
          FirstSeenInPrefix(lics, n, kept[k]);
        } else {
          assert r == kept + [last] && r[k] == last;
          DedupCovers(init);
          NewNameIsFirst(lics, kept);
        }
      }
    }
  }

  /** Two licenses in `ls` differ in name. */
  ghost predicate TwoNames(ls: seq<Element>) {
    exists i, j | 0 <= i < |ls| && 0 <= j < |ls| :: LicenseName(ls[i]) != LicenseName(ls[j])
  }

  /** More than one license is kept exactly when two of the given licenses differ in name. */
  lemma SeveralLicensesIff(lics: seq<Element>)
    ensures |Dedup(lics)| > 1 <==> TwoNames(lics)
  {
    var r := Dedup(lics);
    if |r| > 1 {
      DedupKeepsFirstSeen(lics);
      assert FirstSeen(lics, r[0]) && FirstSeen(lics, r[1]);
      var i :| 0 <= i < |lics| && lics[i] == r[0] && FirstOfName(lics, i);
      var j :| 0 <= j < |lics| && lics[j] == r[1] && FirstOfName(lics, j);
      assert LicenseName(lics[i]) != LicenseName(lics[j]);
    }
    if TwoNames(lics) {
      var i, j :| 0 <= i < |lics| && 0 <= j < |lics| && LicenseName(lics[i]) != LicenseName(lics[j]);
      DedupCovers(lics);
      assert HasName(r, LicenseName(lics[i])) && HasName(r, LicenseName(lics[j]));
      var a :| 0 <= a < |r| && LicenseName(r[a]) == LicenseName(lics[i]);
      var b :| 0 <= b < |r| && LicenseName(r[b]) == LicenseName(lics[j]);
      assert a != b;
    }
  }

  /** The licenses the listed packages carry, in listing order (before deduplication). */
  function FoundLicenses(listing: seq<Pkg>): (r: seq<Element>)
    ensures forall k | 0 <= k < |r| :: r[k].tag == "license"
  {
    if |listing| == 0 then []
    else
      FoundLicenses(listing[..|listing| - 1]) +
        (match LicenseOf(listing[|listing| - 1].info.children) case Some(l) => [l] case None => [])
  }

  /** Every license a listed package carries is found. */
  lemma {:induction false} CarriedLicensesFound(listing: seq<Pkg>)
    ensures forall i | 0 <= i < |listing| && LicenseOf(listing[i].info.children).Some? ::
      LicenseOf(listing[i].info.children).value in FoundLicenses(listing)
  {
    if |listing| > 0 {
      var n := |listing| - 1;
      var init := listing[..n];
      CarriedLicensesFound(init);
      assert forall i | 0 <= i < n :: listing[i] == init[i];
    }
  }

  /** Some listed package carries the license `l`. */
  ghost predicate CarriedBy(listing: seq<Pkg>, l: Element) {
    exists i | 0 <= i < |listing| :: LicenseOf(listing[i].info.children) == Some(l)
  }

  /** Every found license is the license some listed package carries. */
  lemma {:induction false} FoundLicensesCarried(listing: seq<Pkg>)
    ensures forall k | 0 <= k < |FoundLicenses(listing)| :: CarriedBy(listing, FoundLicenses(listing)[k])
  {
    if |listing| > 0 {
      var n := |listing| - 1;
      var init := listing[..n];
      FoundLicensesCarried(init);
      var prev := FoundLicenses(init);
      var r := FoundLicenses(listing);
      forall k | 0 <= k < |r|
        ensures CarriedBy(listing, r[k])
      {
        if k < |prev| {
          assert r[k] == prev[k] && CarriedBy(init, prev[k]);
          var i :| 0 <= i < n && LicenseOf(init[i].info.children) == Some(prev[k]);
          assert listing[i] == init[i];
        } else {
          assert r[k] == LicenseOf(listing[n].info.children).value;
        }
      }
    }
  }

  /** The `notification` child, present only when a message is given; `url` only when a URL is given. */
  function NotificationPart(message: Option<string>, url: Option<string>): (r: seq<Element>)
    ensures |r| == (if message.Some? then 1 else 0)
    ensures message.Some? ==>
      && r[0].tag == "notification" && r[0].text == message.value && r[0].children == []
      && (url.None? ==> r[0].attrs == map[])
      && (url.Some? ==> r[0].attrs == map["url" := url.value])
  {
    match message
    case None => []
    case Some(m) => [Element("notification", if url.Some? then map["url" := url.value] else map[], m, [])]
  }

  /** The generated `updates.xml` tree and whether the "different licenses" warning is logged. */
  datatype Built = Built(root: Element, licenseWarning: bool)

  /** One module entry per listed package, in listing order. */
  function ModuleEntries(listing: seq<Pkg>): (r: seq<Element>)
    ensures |r| == |listing|
    ensures forall i | 0 <= i < |listing| :: r[i] == GetModuleInfo(listing[i]).entry
  {
    seq(|listing|, i requires 0 <= i < |listing| => GetModuleInfo(listing[i]).entry)
  }

  /** The tree `generate_updatexml` assembles for a directory listing. */
  function Build(listing: seq<Pkg>, message: Option<string>, url: Option<string>, timestamp: string): (r: Built)
    ensures r.root.tag == "module_updates" && r.root.attrs == map["timestamp" := timestamp]
    ensures r.licenseWarning <==> |r.root.children| > |NotificationPart(message, url)| + |listing| + 1
  {
    var entries := ModuleEntries(listing);
    var licenses := Dedup(FoundLicenses(listing));
    Built(Element("module_updates", map["timestamp" := timestamp], "",
                  NotificationPart(message, url) + entries + licenses),
          |licenses| > 1)
  }

  /** Where each kind of child sits in a sequence laid out as `ns + es + ls`. */
  lemma TagsAt(ns: seq<Element>, es: seq<Element>, ls: seq<Element>)
    requires forall i | 0 <= i < |ns| :: ns[i].tag == "notification"
    requires forall i | 0 <= i < |es| :: es[i].tag == "module"
    requires forall i | 0 <= i < |ls| :: ls[i].tag == "license"
    ensures var cs := ns + es + ls;
      && (forall i | 0 <= i < |cs| :: cs[i].tag == "notification" <==> i < |ns|)
      && (forall i | 0 <= i < |cs| :: cs[i].tag == "module" <==> |ns| <= i < |ns| + |es|)
      && (forall i | 0 <= i < |cs| :: cs[i].tag == "license" <==> |ns| + |es| <= i)
  {
    var cs := ns + es + ls;
    forall i | 0 <= i < |cs|
      ensures cs[i] == if i < |ns| then ns[i] else if i < |ns| + |es| then es[i - |ns|] else ls[i - |ns| - |es|]
    {
    }
  }

  /** The tags of the catalog's children: the notification first and only when a message is
      given, then one `module` entry per listed package, then the licenses. */
  lemma CatalogTags(listing: seq<Pkg>, message: Option<string>, url: Option<string>, timestamp: string)
    requires forall p | p in listing :: p.info.tag == "module"
    ensures var cs := Build(listing, message, url, timestamp).root.children;
      var off := if message.Some? then 1 else 0;
      && |cs| == off + |listing| + |Dedup(FoundLicenses(listing))|
      && (forall i | 0 <= i < |cs| :: cs[i].tag == "notification" <==> message.Some? && i == 0)
      && (forall i | 0 <= i < |cs| :: cs[i].tag == "module" <==> off <= i < off + |listing|)
      && (forall i | 0 <= i < |cs| :: cs[i].tag == "license" <==> off + |listing| <= i)
  {
    var found := FoundLicenses(listing);
    DedupTagged(found, "license");
    var ns := NotificationPart(message, url);
    var es := ModuleEntries(listing);
    assert Build(listing, message, url, timestamp).root.children == ns + es + Dedup(found);
    forall i | 0 <= i < |es|
      ensures es[i].tag == "module"
    {
      assert listing[i] in listing;
    }
    TagsAt(ns, es, Dedup(found));
  }

  /** The entry of the `i`-th listed package sits right after the optional notification. */
  lemma CatalogEntries(listing: seq<Pkg>, message: Option<string>, url: Option<string>, timestamp: string)
    ensures var cs := Build(listing, message, url, timestamp).root.children;
      |NotificationPart(message, url)| + |listing| <= |cs|
    ensures var cs := Build(listing, message, url, timestamp).root.children;
      forall i | 0 <= i < |listing| :: cs[|NotificationPart(message, url)| + i] == GetModuleInfo(listing[i]).entry
  {
    var ns := NotificationPart(message, url);
    var es := ModuleEntries(listing);
    var ls := Dedup(FoundLicenses(listing));
    var cs := Build(listing, message, url, timestamp).root.children;
    assert cs == ns + es + ls;
    forall i | 0 <= i < |listing|
      ensures cs[|ns| + i] == GetModuleInfo(listing[i]).entry
    {
      MiddleAt(ns, es, ls, i);
    }
  }

  /** The middle part of `ns + es + ls` starts right after `ns`. */
  lemma MiddleAt<T>(ns: seq<T>, es: seq<T>, ls: seq<T>, i: nat)
    requires i < |es|
    ensures (ns + es + ls)[|ns| + i] == es[i]
  {
  }

  /** A given message opens the catalog as a notification, with a `url` exactly when a URL is given. */
  lemma CatalogNotification(listing: seq<Pkg>, message: Option<string>, url: Option<string>, timestamp: string)
    requires message.Some?
    ensures var cs := Build(listing, message, url, timestamp).root.children;
      && |cs| > 0 && cs[0].tag == "notification" && cs[0].text == message.value
      && ("url" in cs[0].attrs <==> url.Some?)
      && (url.Some? ==> cs[0].attrs["url"] == url.value)
  {
    var ns := NotificationPart(message, url);
    var cs := ns + ModuleEntries(listing) + Dedup(FoundLicenses(listing));
    assert Build(listing, message, url, timestamp).root.children == cs;
    assert cs[0] == ns[0];
  }

  /** The children after the notification and the module entries are the deduplicated licenses. */
  lemma LicenseChildren(listing: seq<Pkg>, message: Option<string>, url: Option<string>, timestamp: string)
    ensures var cs := Build(listing, message, url, timestamp).root.children;
      var off := |NotificationPart(message, url)| + |listing|;
      off <= |cs| && cs[off..] == Dedup(FoundLicenses(listing))
  {
    var ns := NotificationPart(message, url);
    var es := ModuleEntries(listing);
    var ls := Dedup(FoundLicenses(listing));
    assert Build(listing, message, url, timestamp).root.children == ns + es + ls;
    assert (ns + es + ls)[|ns| + |es|..] == ls;
  }

  /** The kept licenses name every license a listed package carries, each name once. */
  lemma KeptLicensesCover(listing: seq<Pkg>)
    ensures var kept := Dedup(FoundLicenses(listing));
      && NamesDistinct(kept)
      && forall i | 0 <= i < |listing| && LicenseOf(listing[i].info.children).Some? ::
           HasName(kept, LicenseName(LicenseOf(listing[i].info.children).value))
  {
    var found := FoundLicenses(listing);
    var kept := Dedup(found);
    CarriedLicensesFound(listing);
    DedupCovers(found);
    forall i | 0 <= i < |listing| && LicenseOf(listing[i].info.children).Some?
      ensures HasName(kept, LicenseName(LicenseOf(listing[i].info.children).value))
    {
      var j :| 0 <= j < |found| && found[j] == LicenseOf(listing[i].info.children).value;
      assert HasName(kept, LicenseName(found[j]));
    }
  }

  /** Each kept license is the first license found with its name, and some listed package carries it. */
  lemma KeptLicensesFirstSeen(listing: seq<Pkg>)
    ensures var found := FoundLicenses(listing);
      var kept := Dedup(found);
      forall k | 0 <= k < |kept| :: FirstSeen(found, kept[k]) && CarriedBy(listing, kept[k])
  {
    var found := FoundLicenses(listing);
    var kept := Dedup(found);
    DedupKeepsFirstSeen(found);
    FoundLicensesCarried(listing);
    forall k | 0 <= k < |kept|
      ensures CarriedBy(listing, kept[k])
    {
      assert FirstSeen(found, kept[k]);
      var j :| 0 <= j < |found| && kept[k] == found[j] && FirstOfName(found, j);
      assert CarriedBy(listing, found[j]);
    }
  }

  /** Collecting licenses follows the listing: the licenses of `a + b` are those of `a`, then those of `b`. */
  lemma {:induction false} FoundLicensesAppend(a: seq<Pkg>, b: seq<Pkg>)
    ensures FoundLicenses(a + b) == FoundLicenses(a) + FoundLicenses(b)
    decreases |b|
  {
    if |b| == 0 {
      assert a + b == a;
    } else {
      var init, last := b[..|b| - 1], b[|b| - 1];
      assert (a + b)[..|a + b| - 1] == a + init && (a + b)[|a + b| - 1] == last;
      FoundLicensesAppend(a, init);
      var tail := match LicenseOf(last.info.children) case Some(l) => [l] case None => [];
      assert FoundLicenses(b) == FoundLicenses(init) + tail;
      assert (FoundLicenses(a) + FoundLicenses(init)) + tail == FoundLicenses(a) + (FoundLicenses(init) + tail);
    }
  }

  /** The package at `i` carries `x`, and no package listed before it carries a license of that name. */
  ghost predicate FirstCarrier(listing: seq<Pkg>, i: int, x: Element) {
    && 0 <= i < |listing| && LicenseOf(listing[i].info.children) == Some(x)
    && forall j | 0 <= j < i && LicenseOf(listing[j].info.children).Some? ::
         LicenseName(LicenseOf(listing[j].info.children).value) != LicenseName(x)
  }

  /** Some listed package is the first to carry `x`'s name, and carries `x` itself. */
  ghost predicate FirstInListing(listing: seq<Pkg>, x: Element) {
    exists i :: FirstCarrier(listing, i, x)
  }

  lemma FirstInListingPrefix(listing: seq<Pkg>, n: nat, x: Element)
    requires n <= |listing| && FirstInListing(listing[..n], x)
    ensures FirstInListing(listing, x)
  {
    var i :| FirstCarrier(listing[..n], i, x);
    assert forall j | 0 <= j <= i :: listing[..n][j] == listing[j];
    assert FirstCarrier(listing, i, x);
  }

  lemma KeptPrefixFirstInListing(listing: seq<Pkg>, n: nat, kept: seq<Element>)
    requires n <= |listing|
    requires forall k | 0 <= k < |kept| :: FirstInListing(listing[..n], kept[k])
    ensures forall k | 0 <= k < |kept| :: FirstInListing(listing, kept[k])
  {
    forall k | 0 <= k < |kept|
      ensures FirstInListing(listing, kept[k])
    {
      FirstInListingPrefix(listing, n, kept[k]);
    }
  }

  /** A license whose name nothing kept so far carries is the first of its name in the listing. */
  lemma NewLicenseIsFirst(listing: seq<Pkg>, l: Element)
    requires |listing| > 0 && LicenseOf(listing[|listing| - 1].info.children) == Some(l)
    requires !HasName(Dedup(FoundLicenses(listing[..|listing| - 1])), LicenseName(l))
    ensures FirstCarrier(listing, |listing| - 1, l)
  {
    var n := |listing| - 1;
    var init := listing[..n];
    var foundInit := FoundLicenses(init);
    DedupCovers(foundInit);
    CarriedLicensesFound(init);
    forall j | 0 <= j < n && LicenseOf(listing[j].info.children).Some?
      ensures LicenseName(LicenseOf(listing[j].info.children).value) != LicenseName(l)
    {
      assert init[j] == listing[j];
      var c := LicenseOf(init[j].info.children).value;
      var m :| 0 <= m < |foundInit| && foundInit[m] == c;
      assert HasName(Dedup(foundInit), LicenseName(foundInit[m]));
    }
  }

  /** One more listed package keeps the kept licenses first and adds its own license only when
      nothing kept carries that name. */
  lemma KeptStep(listing: seq<Pkg>)
    requires |listing| > 0
    ensures Dedup(FoundLicenses(listing[..|listing| - 1])) <= Dedup(FoundLicenses(listing))
    ensures |Dedup(FoundLicenses(listing))| <= |Dedup(FoundLicenses(listing[..|listing| - 1]))| + 1
    ensures |Dedup(FoundLicenses(listing))| > |Dedup(FoundLicenses(listing[..|listing| - 1]))| ==>
      var added := Dedup(FoundLicenses(listing))[|Dedup(FoundLicenses(listing[..|listing| - 1]))|];
      && LicenseOf(listing[|listing| - 1].info.children) == Some(added)
      && !HasName(Dedup(FoundLicenses(listing[..|listing| - 1])), LicenseName(added))
  {
    var n := |listing| - 1;
    var found, foundInit := FoundLicenses(listing), FoundLicenses(listing[..n]);
    var keptInit := Dedup(foundInit);
    match LicenseOf(listing[n].info.children)
    case None =>
      assert found == foundInit;
    case Some(l) =>
      assert found[..|found| - 1] == foundInit && found[|found| - 1] == l;
      assert Dedup(found) == AddLicense(keptInit, l);
  }

  /** Each kept license is carried by the first listed package whose license has that name:
      packages are visited in listing order and a later license of a kept name is skipped. */
  lemma {:induction false} KeptLicensesFirstInListing(listing: seq<Pkg>)
    ensures forall k | 0 <= k < |Dedup(FoundLicenses(listing))| :: FirstInListing(listing, Dedup(FoundLicenses(listing))[k])
    decreases |listing|
  {
    if |listing| > 0 {
      var n := |listing| - 1;
      var init := listing[..n];
      var kept, keptInit := Dedup(FoundLicenses(listing)), Dedup(FoundLicenses(init));
      KeptLicensesFirstInListing(init);
      KeptPrefixFirstInListing(listing, n, keptInit);
      KeptStep(listing);
      if |kept| > |keptInit| {
        NewLicenseIsFirst(listing, kept[|keptInit|]);
      }
      KeptFirstFromStep(listing, kept, keptInit);
    }
  }

  lemma KeptFirstFromStep(listing: seq<Pkg>, kept: seq<Element>, keptInit: seq<Element>)
    requires |listing| > 0 && keptInit <= kept && |kept| <= |keptInit| + 1
    requires forall k | 0 <= k < |keptInit| :: FirstInListing(listing, keptInit[k])
    requires |kept| > |keptInit| ==> FirstCarrier(listing, |listing| - 1, kept[|keptInit|])
    ensures forall k | 0 <= k < |kept| :: FirstInListing(listing, kept[k])
  {
    forall k | 0 <= k < |kept|
      ensures FirstInListing(listing, kept[k])
    {
      if k < |keptInit| {
        assert kept[k] == keptInit[k];
      } else {
        assert FirstCarrier(listing, |listing| - 1, kept[k]);
      }
    }
  }

  /** Two found licenses that differ in name come from two listed packages whose licenses do. */
  lemma FoundNamesDifferSound(listing: seq<Pkg>, a: nat, b: nat)
    requires a < |FoundLicenses(listing)| && b < |FoundLicenses(listing)|
    requires LicenseName(FoundLicenses(listing)[a]) != LicenseName(FoundLicenses(listing)[b])
    ensures exists i, j | 0 <= i < |listing| && 0 <= j < |listing| ::
      && LicenseOf(listing[i].info.children).Some? && LicenseOf(listing[j].info.children).Some?
      && LicenseName(LicenseOf(listing[i].info.children).value) != LicenseName(LicenseOf(listing[j].info.children).value)
  {
    var found := FoundLicenses(listing);
    FoundLicensesCarried(listing);
    assert CarriedBy(listing, found[a]) && CarriedBy(listing, found[b]);
    var i :| 0 <= i < |listing| && LicenseOf(listing[i].info.children) == Some(found[a]);
    var j :| 0 <= j < |listing| && LicenseOf(listing[j].info.children) == Some(found[b]);
  }

  /** Two listed packages whose licenses differ in name contribute two found licenses that do. */
  lemma FoundNamesDifferComplete(listing: seq<Pkg>, i: nat, j: nat)
    requires i < |listing| && j < |listing|
    requires LicenseOf(listing[i].info.children).Some? && LicenseOf(listing[j].info.children).Some?
    requires LicenseName(LicenseOf(listing[i].info.children).value) != LicenseName(LicenseOf(listing[j].info.children).value)
    ensures TwoNames(FoundLicenses(listing))
  {
    var found := FoundLicenses(listing);
    CarriedLicensesFound(listing);
    var a :| 0 <= a < |found| && found[a] == LicenseOf(listing[i].info.children).value;
    var b :| 0 <= b < |found| && found[b] == LicenseOf(listing[j].info.children).value;
    assert LicenseName(found[a]) != LicenseName(found[b]);
  }

  /** The "different licenses" warning is logged exactly when two listed packages carry licenses
      with different names. */
  lemma LicenseWarningIff(listing: seq<Pkg>, message: Option<string>, url: Option<string>, timestamp: string)
    ensures Build(listing, message, url, timestamp).licenseWarning <==>
      exists i, j | 0 <= i < |listing| && 0 <= j < |listing| ::
        && LicenseOf(listing[i].info.children).Some? && LicenseOf(listing[j].info.children).Some?
        && LicenseName(LicenseOf(listing[i].info.children).value) != LicenseName(LicenseOf(listing[j].info.children).value)
  {
    var found := FoundLicenses(listing);
    SeveralLicensesIff(found);
    if TwoNames(found) {
      var a, b :| 0 <= a < |found| && 0 <= b < |found| && LicenseName(found[a]) != LicenseName(found[b]);
      FoundNamesDifferSound(listing, a, b);
    }
    if exists i, j | 0 <= i < |listing| && 0 <= j < |listing| ::
        && LicenseOf(listing[i].info.children).Some? && LicenseOf(listing[j].info.children).Some?
        && LicenseName(LicenseOf(listing[i].info.children).value) != LicenseName(LicenseOf(listing[j].info.children).value) {
      var i, j :| 0 <= i < |listing| && 0 <= j < |listing|
        && LicenseOf(listing[i].info.children).Some? && LicenseOf(listing[j].info.children).Some?
        && LicenseName(LicenseOf(listing[i].info.children).value) != LicenseName(LicenseOf(listing[j].info.children).value);
      FoundNamesDifferComplete(listing, i, j);
    }
  }

  /** `generate_updatexml`: build the tree, then refuse it unless it conforms to the DTD. */
  function GenerateUpdateXml(listing: seq<Pkg>, message: Option<string>, url: Option<string>, timestamp: string)
    : (r: Result<Built, DeployError>)
    ensures r.Success? ==> ValidCatalog(r.value.root)
    ensures r.Failure? ==> r.error == CatalogValidationFailed
  {
    var b := Build(listing, message, url, timestamp);
    if ValidCatalog(b.root) then Success(b) else Failure(CatalogValidationFailed)
  }

  /** A package `info.xml` that yields a valid module entry once its license is taken out and its
      size is set: a `module` root with the attributes the DTD declares and requires (other than
      `downloadsize`), at most one `license` child, which names its license, and otherwise the
      module content model. */
  ghost predicate WellFormedInfo(e: Element) {
    && e.tag == "module"
    && AttrsConform(e, ModuleAttrs, {"codenamebase", "distribution"}, ModuleBooleans)
    && WhitespaceOnly(e.text)
    && CountTagged(e.children, "license") <= 1
    && (forall i | 0 <= i < |e.children| && e.children[i].tag == "license" :: ValidLicense(e.children[i]))
    && ValidModuleContent(WithoutTagged(e.children, "license"))
  }

  /** Setting `downloadsize` on a conforming root makes every `module` attribute requirement hold. */
  lemma DownloadSizeConforms(e: Element, size: string, cs: seq<Element>)
    requires AttrsConform(e, ModuleAttrs, {"codenamebase", "distribution"}, ModuleBooleans)
    ensures AttrsConform(Element(e.tag, e.attrs["downloadsize" := size], e.text, cs), ModuleAttrs, ModuleRequired, ModuleBooleans)
  {
    var attrs := e.attrs["downloadsize" := size];
    assert "downloadsize" in ModuleAttrs && "downloadsize" !in ModuleBooleans;
    assert attrs.Keys == e.attrs.Keys + {"downloadsize"};
    forall k | k in ModuleBooleans && k in attrs
      ensures attrs[k] == "true" || attrs[k] == "false"
    {
      assert k != "downloadsize" && k in e.attrs;
    }
  }

  /** With at most one `license` child, taking out the last one takes out all of them. */
  lemma UnlicensedIsFiltered(cs: seq<Element>)
    requires CountTagged(cs, "license") <= 1
    ensures Unlicensed(cs) == WithoutTagged(cs, "license")
  {
    if CountTagged(cs, "license") == 0 {
      NoneTagged(cs, "license");
    } else {
      RemoveSoleTagged(cs, "license");
    }
  }

  /** A well-formed package yields a valid module entry and, if any, a valid license. */
  lemma ModuleInfoValid(p: Pkg)
    requires WellFormedInfo(p.info)
    ensures ValidModule(GetModuleInfo(p).entry)
    ensures GetModuleInfo(p).license.Some? ==> ValidLicense(GetModuleInfo(p).license.value)
  {
    var cs := p.info.children;
    DownloadSizeConforms(p.info, FromNat(p.size), Unlicensed(cs));
    UnlicensedIsFiltered(cs);
    match LastTagged(cs, "license")
    case None =>
    case Some(i) =>
      assert ValidLicense(cs[i]);
  }

  /** With every package rooted at `module`, the catalog validates exactly when every module
      entry and every kept license does. */
  lemma GenerateIff(listing: seq<Pkg>, message: Option<string>, url: Option<string>, timestamp: string)
    requires forall p | p in listing :: p.info.tag == "module"
    ensures var entries := ModuleEntries(listing);
      var kept := Dedup(FoundLicenses(listing));
      GenerateUpdateXml(listing, message, url, timestamp).Success? <==>
      && (forall i | 0 <= i < |entries| :: ValidModule(entries[i]))
      && (forall k | 0 <= k < |kept| :: ValidLicense(kept[k]))
  {
    var found := FoundLicenses(listing);
    DedupTagged(found, "license");
    var ns := NotificationPart(message, url);
    var es := ModuleEntries(listing);
    var ls := Dedup(found);
    forall i | 0 <= i < |es|
      ensures es[i].tag == "module"
    {
      assert listing[i] in listing;
    }
    CatalogValidIff(ns, es, ls, timestamp);
    GenerateValidates(listing, message, url, timestamp);
  }

  /** The run succeeds exactly when the assembled root validates. */
  lemma GenerateValidates(listing: seq<Pkg>, message: Option<string>, url: Option<string>, timestamp: string)
    ensures GenerateUpdateXml(listing, message, url, timestamp).Success? <==>
      ValidCatalog(Element("module_updates", map["timestamp" := timestamp], "",
                           NotificationPart(message, url) + ModuleEntries(listing) + Dedup(FoundLicenses(listing))))
  {
  }

  /** The catalog root over children laid out as `ns + es + ls` validates exactly when each part does. */
  lemma CatalogValidIff(ns: seq<Element>, es: seq<Element>, ls: seq<Element>, timestamp: string)
    requires |ns| <= 1 && (|ns| == 1 ==> ValidNotification(ns[0]))
    requires forall i | 0 <= i < |es| :: es[i].tag == "module"
    requires forall k | 0 <= k < |ls| :: ls[k].tag == "license"
    ensures ValidCatalog(Element("module_updates", map["timestamp" := timestamp], "", ns + es + ls)) <==>
      && (forall i | 0 <= i < |es| :: ValidModule(es[i]))
      && (forall k | 0 <= k < |ls| :: ValidLicense(ls[k]))
  {
    var root := Element("module_updates", map["timestamp" := timestamp], "", ns + es + ls);
    assert AttrsConform(root, {"timestamp"}, {"timestamp"}, {});
    assert WhitespaceOnly(root.text);
    if ValidCatalogContent(ns + es + ls) {
      CatalogContentSound(ns, es, ls);
    }
    if (forall i | 0 <= i < |es| :: ValidModule(es[i])) && (forall k | 0 <= k < |ls| :: ValidLicense(ls[k])) {
      CatalogContentComplete(ns, es, ls);
    }
  }

  /** Well-formed packages give valid module entries ... */
  lemma EntriesValid(listing: seq<Pkg>)
    requires forall p | p in listing :: WellFormedInfo(p.info)
    ensures forall i | 0 <= i < |ModuleEntries(listing)| :: ValidModule(ModuleEntries(listing)[i])
  {
    var entries := ModuleEntries(listing);
    forall i | 0 <= i < |entries|
      ensures ValidModule(entries[i])
    {
      assert listing[i] in listing;
      ModuleInfoValid(listing[i]);
    }
  }

  /** ... and valid kept licenses. */
  lemma KeptLicensesValid(listing: seq<Pkg>)
    requires forall p | p in listing :: WellFormedInfo(p.info)
    ensures forall k | 0 <= k < |Dedup(FoundLicenses(listing))| :: ValidLicense(Dedup(FoundLicenses(listing))[k])
  {
    var kept := Dedup(FoundLicenses(listing));
    KeptLicensesFirstSeen(listing);
    forall k | 0 <= k < |kept|
      ensures ValidLicense(kept[k])
    {
      assert CarriedBy(listing, kept[k]);
      var i :| 0 <= i < |listing| && LicenseOf(listing[i].info.children) == Some(kept[k]);
      assert listing[i] in listing;
      ModuleInfoValid(listing[i]);
    }
  }

  /** Well-formed packages always produce a catalog that validates. */
  lemma GenerateSucceeds(listing: seq<Pkg>, message: Option<string>, url: Option<string>, timestamp: string)
    requires forall p | p in listing :: WellFormedInfo(p.info)
    ensures GenerateUpdateXml(listing, message, url, timestamp).Success?
  {
    GenerateIff(listing, message, url, timestamp);
    EntriesValid(listing);
    KeptLicensesValid(listing);
  }

  /** A module entry without its required `codenamebase` fails validation, and the run with it. */
  lemma MissingCodenameRejected(listing: seq<Pkg>, message: Option<string>, url: Option<string>, timestamp: string, i: nat)
    requires forall p | p in listing :: p.info.tag == "module"
    requires i < |listing| && "codenamebase" !in listing[i].info.attrs
    ensures GenerateUpdateXml(listing, message, url, timestamp) == Failure(CatalogValidationFailed)
  {
    GenerateIff(listing, message, url, timestamp);
    var entries := ModuleEntries(listing);
    assert "codenamebase" !in entries[i].attrs;
    assert !ValidModule(entries[i]);
  }
}
