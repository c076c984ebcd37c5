/** An example page over the page's registry: links keyed intro, api and
    setup, then a link keyed `missing`. */
module Scenarios {
  import opened Wrappers
  import opened Flags
  import opened DocRouter

  /** Start-up selects intro; a click on api moves the selection and the
      content; a click on a link keyed `missing` renders the fallback. */
  method ExamplePage()
  {
    var r := new Router(Registry(), [Some("intro"), Some("api"), Some("setup"), Some("missing")],
                        [false, false, false, false], true, "");
    r.Init();
    RegistryLookup(Some("intro"));
    assert r.active[..] == [true, false, false, false];
    assert r.content == IntroDoc;

    r.Click(1);
    RegistryLookup(Some("api"));
    assert r.active[..] == [false, true, false, false];
    assert r.content == ApiDoc;

    r.Click(3);
    RegistryLookup(Some("missing"));
    assert r.active[..] == [false, false, false, true];
    assert r.content == NotFound;
  }

  /** Without a content area the page stays as loaded and clicks do nothing. */
  method NoContentArea()
  {
    var r := new Router(Registry(), [Some("intro"), None], [false, true], false, "static");
    r.Init();
    r.Click(0);
    assert r.active[..] == [false, true] && r.content == "static";
  }
}
