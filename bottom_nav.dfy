/**
 * The bottom navigation bar: which item is drawn as the current page.
 */
module BottomNav {
  import opened Basics

  /** `isActive(path)`: the home item only on `/` itself, any other item on every path it prefixes. */
  predicate IsActive(pathname: string, path: string) {
    if path == "/" then pathname == "/" else StartsWith(pathname, path)
  }

  /** The Clients item is highlighted under `/clients`, except on a path containing `/add`. */
  predicate ClientsHighlighted(pathname: string) {
    IsActive(pathname, "/clients") && !Includes(pathname, "/add")
  }

  /**
   * Home is active on `/` alone; another item is active exactly on the
   * paths that extend its own path by any text, a raw prefix test with no
   * segment boundary.
   */
  lemma IsActiveSpec(pathname: string, path: string)
    ensures IsActive(pathname, "/") <==> pathname == "/"
    ensures path != "/" ==> (IsActive(pathname, path) <==> exists rest :: pathname == path + rest)
  {
    if path != "/" && IsActive(pathname, path) {
      assert pathname == path + pathname[|path|..];
    }
    if path != "/" && exists rest :: pathname == path + rest {
      var rest :| pathname == path + rest;
      assert pathname[..|path|] == path;
    }
  }

  /** Because the test has no segment boundary, `/clientsX` counts as under `/clients`. */
  lemma RawPrefix()
    ensures IsActive("/clientsX", "/clients")
  {
  }

  /** The add-client page is under `/clients`, yet the Clients item is not highlighted there. */
  lemma AddPageNotHighlighted()
    ensures IsActive("/clients/add", "/clients")
    ensures !ClientsHighlighted("/clients/add")
  {
    assert OccursAt("/clients/add", "/add", 8);
    IncludesAt("/clients/add", "/add");
  }

  /**
   * On a client's page `/clients/<id>` the Clients item is highlighted
   * exactly when the id does not start with `add`: `includes('/add')`
   * cannot tell the add page from a client whose id begins that way.
   */
  lemma ClientPageHighlighted(id: string)
    requires forall i :: 0 <= i < |id| ==> id[i] != '/'
    ensures ClientsHighlighted("/clients/" + id) <==> !StartsWith(id, "add")
  {
    var p := "/clients/" + id;
    assert p[..|"/clients"|] == "/clients";
    IncludesAt(p, "/add");
    if StartsWith(id, "add") {
      assert p[8..12] == "/" + id[..3];
      assert OccursAt(p, "/add", 8);
    } else {
      forall i: nat ensures !OccursAt(p, "/add", i) {
        if i + 4 <= |p| {
          assert p[i..i + 4][0] == p[i];
          if i == 0 {
            assert p[i..i + 4][1] == p[1];
          } else if i == 8 {
            assert p[i..i + 4][1..] == id[..3];
          } else if i > 8 {
            assert p[i] == id[i - 9];
          }
        }
      }
    }
  }

  /** A client id beginning with `add`, as one hex id in 4096 does, leaves the Clients item dark on its own page. */
  lemma AddPrefixedIdNotHighlighted()
    ensures IsActive("/clients/add3f0c2", "/clients")
    ensures !ClientsHighlighted("/clients/add3f0c2")
  {
    var id := "add3f0c2";
    assert id[..3] == "add";
    assert forall i :: 0 <= i < |id| ==> id[i] != '/';
    ClientPageHighlighted(id);
    assert "/clients/" + id == "/clients/add3f0c2";
  }

  /**
   * The exclusion as the routes call for it: the Clients item is lit on
   * every page under `/clients` except the add page, which has its own
   * item.
   */
  predicate ClientsHighlightedIntended(pathname: string) {
    IsActive(pathname, "/clients") && pathname != "/clients/add"
  }

  /** With the intended test, every client's page is highlighted and only the add page is not. */
  lemma IntendedClientPageHighlighted(id: string)
    ensures ClientsHighlightedIntended("/clients/" + id) <==> id != "add"
    ensures ClientsHighlightedIntended("/clients")
    ensures !ClientsHighlightedIntended("/clients/add")
  {
    var p := "/clients/" + id;
    assert p[..|"/clients"|] == "/clients";
    if id != "add" {
      if |id| == 3 {
        assert p[9..] == id;
      } else {
        assert |p| != |"/clients/add"|;
      }
    }
  }

  /** An active item's path agrees with the current path on every position of the item's path. */
  lemma ActiveAgrees(pathname: string, path: string, i: nat)
    ensures path != "/" && IsActive(pathname, path) && i < |path| ==> pathname[i] == path[i]
  {
    if path != "/" && IsActive(pathname, path) && i < |path| {
      assert pathname[..|path|][i] == pathname[i];
    }
  }

  /** At most one of the Home, Clients and More items is drawn active. */
  lemma OneActiveItem(pathname: string)
    ensures !(IsActive(pathname, "/") && IsActive(pathname, "/clients"))
    ensures !(IsActive(pathname, "/") && IsActive(pathname, "/more"))
    ensures !(IsActive(pathname, "/clients") && IsActive(pathname, "/more"))
  {
    ActiveAgrees(pathname, "/clients", 1);
    ActiveAgrees(pathname, "/more", 1);
  }
}
