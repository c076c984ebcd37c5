/** The documentation page: a row of links, each naming a registry key in its
    `data-doc` attribute, a content area, and a fixed key-to-fragment registry.
    Selecting a link makes it the only active link and renders its fragment. */
module DocRouter {
  import opened Wrappers
  import opened Flags

  /** The fragment rendered for a key the registry does not resolve. */
  const NotFound: string := "<h1>Documento no encontrado</h1>"

  const IntroDoc: string := "<h1>Introducción</h1><p>Bienvenido a la documentación de mi portafolio. Aquí encontrarás detalles sobre cómo fui construido y mis proyectos.</p>"
  const ApiDoc: string := "<h1>API Reference</h1><p>Aquí se detallarían los endpoints si tuviera backend...</p><pre>GET /api/projects</pre>"
  const SetupDoc: string := "<h1>Configuración</h1><p>Instrucciones de despliegue y setup local.</p>"

  /** The registry literal the page builds at start-up. Every fragment is
      longer than the fallback, so none is empty and none equals it. */
  function Registry(): (docs: map<string, string>)
    ensures docs.Keys == {"intro", "api", "setup"}
    ensures forall k :: k in docs ==> |docs[k]| > |NotFound|
  {
    map["intro" := IntroDoc, "api" := ApiDoc, "setup" := SetupDoc]
  }

  /** The property name an object index `docs[key]` reads: a null attribute
      is converted to the string "null". */
  function PropertyName(key: Option<string>): string {
    match key
    case None => "null"
    case Some(k) => k
  }

  /** The registry entry is used when it exists and is truthy (a non-empty
      string); anything else renders the fallback. */
  predicate Resolves(docs: map<string, string>, key: Option<string>) {
    PropertyName(key) in docs && docs[PropertyName(key)] != ""
  }

  /** What the content area holds after a link bearing `key` is selected. */
  function Lookup(docs: map<string, string>, key: Option<string>): (r: string)
    ensures r == NotFound || r in docs.Values
    ensures r != ""
    ensures Resolves(docs, key) ==> r == docs[PropertyName(key)]
    ensures !Resolves(docs, key) ==> r == NotFound
  {
    if Resolves(docs, key) then docs[PropertyName(key)] else NotFound
  }

  /** With the page's registry, truthiness is membership: a present key
      renders its fragment, and a null or unknown key renders the fallback,
      which no registered key can produce. */
  lemma RegistryLookup(key: Option<string>)
    ensures key.Some? && key.value in Registry() ==> Lookup(Registry(), key) == Registry()[key.value]
    ensures (key.None? || key.value !in Registry()) <==> Lookup(Registry(), key) == NotFound
  {
    if key.None? {
      assert "null" !in Registry();
    }
  }

  /** The links, their `active` flags and the content area. `listening` is
      whether initialisation attached the click handlers. */
  class Router {
    const docs: map<string, string>
    const keys: seq<Option<string>>
    const active: array<bool>
    const hasContentArea: bool
    var content: string
    var listening: bool

    ghost predicate Valid()
      reads this
    {
      active.Length == |keys|
    }

    /** Once handlers are attached, exactly one link is active and the content
        area shows what that link's key resolves to. */
    ghost predicate Ready()
      reads this, active
      requires Valid()
    {
      listening ==>
        CountTrue(active[..]) == 1 &&
        forall j :: 0 <= j < |keys| && active[j] ==> content == Lookup(docs, keys[j])
    }

    /** The page as loaded: links with their attributes and initial flags,
        and a content area that may be absent. */
    constructor (docs: map<string, string>, keys: seq<Option<string>>, flags: seq<bool>,
                 hasContentArea: bool, content: string)
      requires |flags| == |keys|
      ensures Valid() && Ready() && fresh(active)
      ensures this.docs == docs && this.keys == keys && active[..] == flags
      ensures this.hasContentArea == hasContentArea && this.content == content
      ensures !listening
    {
      this.docs := docs;
      this.keys := keys;
      this.hasContentArea := hasContentArea;
      this.content := content;
      listening := false;
      active := new bool[|flags|](j => 0 <= j < |flags| && flags[j]);
    }

    /** The click handler of link `i`: clear every link's flag, set link
        `i`'s, then replace the content with its fragment or the fallback. */
    method Select(i: nat)
      requires Valid() && i < |keys|
      modifies this`content, active
      ensures Valid()
      ensures active[..] == Exclusive(|keys|, i)
      ensures content == Lookup(docs, keys[i])
      ensures listening == old(listening)
    {
      var j := 0;
      while j < active.Length
        invariant 0 <= j <= active.Length
        invariant forall k :: 0 <= k < j ==> !active[k]
      {
        active[j] := false;
        j := j + 1;
      }
      active[i] := true;
      assert active[..] == Exclusive(|keys|, i);
      content := Lookup(docs, keys[i]);
    }

    /** Start-up: inert without links or without a content area; otherwise
        attach the handlers and select the first link. */
    method Init()
      requires Valid() && !listening
      modifies this, active
      ensures Valid() && Ready()
      ensures |keys| == 0 || !hasContentArea ==>
        !listening && active[..] == old(active[..]) && content == old(content)
      ensures |keys| > 0 && hasContentArea ==>
        listening && active[..] == Exclusive(|keys|, 0) && content == Lookup(docs, keys[0])
    {
      if |keys| == 0 || !hasContentArea {
        return;
      }
      listening := true;
      Select(0);
    }

    /** A user click on link `i`: handled only if initialisation attached
        the handlers. */
    method Click(i: nat)
      requires Valid() && Ready() && i < |keys|
      modifies this`content, active
      ensures Valid() && Ready()
      ensures listening ==> active[..] == Exclusive(|keys|, i) && content == Lookup(docs, keys[i])
      ensures !listening ==> active[..] == old(active[..]) && content == old(content)
    {
      if listening {
        Select(i);
      }
    }
  }

  /** Selecting the same link twice leaves the page as selecting it once:
      `once` and `onceContent` are the flags and content after the first
      selection. */
  method SelectTwice(r: Router, i: nat) returns (once: seq<bool>, onceContent: string)
    requires r.Valid() && i < |r.keys|
    modifies r`content, r.active
    ensures once == Exclusive(|r.keys|, i) && onceContent == Lookup(r.docs, r.keys[i])
    ensures r.active[..] == once && r.content == onceContent
  {
    r.Select(i);
    once, onceContent := r.active[..], r.content;
    r.Select(i);
  }
}
