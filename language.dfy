/**
 * The English/Arabic switcher: `setLanguage`, the toggle's click handler and
 * the two places that re-apply the stored choice on load.
 *
 * A page is its `<html>` attributes `lang` and `dir`, the toggle control's
 * label, the page's elements and the browser's key-value storage. Elements are
 * values: their `data-*` attributes (keyed by the name after `data-`) and
 * their child nodes. An element child is referred to by an identifier only;
 * the switcher never looks inside it.
 */
module Language {

  import opened Wrappers

  /** Storage key of the language preference. */
  const LangKey := "hrRecruitLang"

  datatype Node = Text(content: string) | Elem(id: nat) | Comment(data: string)

  datatype Element = Element(data: map<string, string>, children: seq<Node>)

  /** Matches the selector `[data-en][data-ar]`. */
  predicate Translatable(e: Element) {
    "en" in e.data && "ar" in e.data
  }

  /** `childElementCount !== 0`. */
  predicate HasElementChild(cs: seq<Node>) {
    exists k :: 0 <= k < |cs| && cs[k].Elem?
  }

  /** The identifiers of the element children, in order: the markup nested inside an element. */
  function ElementChildren(cs: seq<Node>): seq<nat> {
    if cs == [] then []
    else (if cs[0].Elem? then [cs[0].id] else []) + ElementChildren(cs[1..])
  }

  /** `Array.from(childNodes).find(n => n.nodeType === TEXT_NODE)`: the position of the
      first text node, or nothing when no child is a text node. */
  function FirstText(cs: seq<Node>): (r: Option<nat>)
    ensures r.Some? ==> r.value < |cs| && cs[r.value].Text?
                        && forall k :: 0 <= k < r.value ==> !cs[k].Text?
    ensures r.None? ==> forall k :: 0 <= k < |cs| ==> !cs[k].Text?
  {
    if cs == [] then None
    else if cs[0].Text? then Some(0)
    else match FirstText(cs[1..])
      case None => None
      case Some(k) => Some(k + 1)
  }

  /** `el.getAttribute('data-' + lang)`, on a translatable element, when it is present and not empty. */
  function Translation(e: Element, lang: string): Option<string> {
    if Translatable(e) && lang in e.data && e.data[lang] != "" then Some(e.data[lang]) else None
  }

  /** The body of the `forEach` in `setLanguage`, for one element. */
  function ApplyToElement(e: Element, lang: string): (r: Element)
    // attributes are never touched, nor is any element child, nor their order
    ensures r.data == e.data
    ensures ElementChildren(r.children) == ElementChildren(e.children)
    // not selected, or nothing to write: left exactly as it was
    ensures Translation(e, lang).None? ==> r == e
    // no element child: the whole text becomes the translation
    ensures Translation(e, lang).Some? && !HasElementChild(e.children) ==>
      r.children == [Text(e.data[lang])]
    // element children: only the first text node changes, and only its content
    ensures Translation(e, lang).Some? && HasElementChild(e.children) ==>
      match FirstText(e.children)
      case None => r == e
      case Some(k) => r.children == e.children[k := Text(e.data[lang])]
  {
    match Translation(e, lang)
    case None => e
    case Some(text) =>
      if !HasElementChild(e.children) then
        NoElementChildren(e.children);
        e.(children := [Text(text)])
      else
        match FirstText(e.children)
        case None => e
        case Some(k) =>
          ReplaceTextKeepsElements(e.children, k, text);
          e.(children := e.children[k := Text(text)])
  }

  lemma {:induction false} NoElementChildren(cs: seq<Node>)
    requires !HasElementChild(cs)
    ensures ElementChildren(cs) == []
  {
    if cs != [] {
      assert !HasElementChild(cs[1..]) by {
        forall k | 0 <= k < |cs| - 1 ensures !cs[1..][k].Elem? {
          assert cs[1..][k] == cs[k + 1];
        }
      }
      NoElementChildren(cs[1..]);
    }
  }

  lemma {:induction false} ReplaceTextKeepsElements(cs: seq<Node>, k: nat, text: string)
    requires k < |cs| && cs[k].Text?
    ensures ElementChildren(cs[k := Text(text)]) == ElementChildren(cs)
  {
    if k > 0 {
      ReplaceTextKeepsElements(cs[1..], k - 1, text);
      assert cs[k := Text(text)][1..] == cs[1..][k - 1 := Text(text)];
    }
  }

  /** Overwriting one text node with another leaves the first text node where it was. */
  lemma {:induction false} FirstTextAfterReplace(cs: seq<Node>, k: nat, text: string)
    requires FirstText(cs) == Some(k)
    ensures FirstText(cs[k := Text(text)]) == Some(k)
  {
    var cs' := cs[k := Text(text)];
    if k > 0 {
      FirstTextAfterReplace(cs[1..], k - 1, text);
      assert cs'[1..] == cs[1..][k - 1 := Text(text)];
    }
  }

  /** Applying one language and then another that has a translation for `e` is the same as
      applying only the second: the later `setLanguage` overwrites exactly what the earlier wrote. */
  lemma LastLanguageWins(e: Element, first: string, second: string)
    requires Translation(e, second).Some?
    ensures ApplyToElement(ApplyToElement(e, first), second) == ApplyToElement(e, second)
  {
    var mid := ApplyToElement(e, first);
    assert Translation(mid, second) == Translation(e, second);
    if Translation(e, first).Some? {
      if !HasElementChild(e.children) {
        assert !HasElementChild(mid.children);
      } else {
        match FirstText(e.children)
        case None =>
        case Some(k) =>
          FirstTextAfterReplace(e.children, k, e.data[first]);
          assert HasElementChild(mid.children) by {
            var j :| 0 <= j < |e.children| && e.children[j].Elem?;
            assert mid.children[j] == e.children[j];
          }
      }
    }
  }

  /** Applying a language twice to an element is applying it once. */
  lemma ApplyIdempotent(e: Element, lang: string)
    ensures ApplyToElement(ApplyToElement(e, lang), lang) == ApplyToElement(e, lang)
  {
    if Translation(e, lang).Some? {
      LastLanguageWins(e, lang, lang);
    }
  }

  /** The element rewriting of `setLanguage(lang)` over the elements of the page, in document order. */
  function ApplyAll(s: seq<Element>, lang: string): (r: seq<Element>)
    ensures |r| == |s|
    ensures forall i :: 0 <= i < |s| && Translation(s[i], lang).None? ==> r[i] == s[i]
  {
    seq(|s|, i requires 0 <= i < |s| => ApplyToElement(s[i], lang))
  }

  /** The page's elements show `lang`: applying it again changes nothing. */
  ghost predicate Rendered(s: seq<Element>, lang: string) {
    forall i :: 0 <= i < |s| ==> ApplyToElement(s[i], lang) == s[i]
  }

  /** After `setLanguage(lang)` the page shows `lang`; a second call with the same value
      (script load, then `DOMContentLoaded`) changes nothing. */
  lemma SetLanguageIdempotent(s: seq<Element>, lang: string)
    ensures Rendered(ApplyAll(s, lang), lang)
    ensures ApplyAll(ApplyAll(s, lang), lang) == ApplyAll(s, lang)
  {
    forall i | 0 <= i < |s| ensures ApplyToElement(ApplyAll(s, lang)[i], lang) == ApplyAll(s, lang)[i] {
      ApplyIdempotent(s[i], lang);
    }
  }

  /** A language no element carries a `data-` attribute for (`fr`, say) rewrites no text. */
  lemma UnknownLanguageRewritesNothing(s: seq<Element>, lang: string)
    requires forall i :: 0 <= i < |s| ==> lang !in s[i].data
    ensures ApplyAll(s, lang) == s
  {
  }

  /** `getAttribute('lang') || 'en'`: the attribute when present and not empty, else `en`. */
  function CurrentLang(attr: Option<string>): (r: string)
    ensures r != ""
    ensures attr.Some? && attr.value != "" ==> r == attr.value
    ensures attr.None? || attr.value == "" ==> r == "en"
  {
    match attr
    case Some(l) => if l == "" then "en" else l
    case None => "en"
  }

  /** The click handler's choice of the next language. */
  function Flip(current: string): (r: string)
    ensures r == "en" || r == "ar"
    ensures r == "ar" <==> current == "en"
  {
    if current == "en" then "ar" else "en"
  }

  /** Flipping twice gives back the language exactly when it was one of the two. */
  lemma FlipTwice(current: string)
    ensures Flip(Flip(current)) == current <==> current == "en" || current == "ar"
  {
  }

  /** `localStorage.getItem(LANG_KEY) || 'en'`. */
  function SavedLang(storage: map<string, string>): (r: string)
    ensures r != ""
    ensures LangKey in storage && storage[LangKey] != "" ==> r == storage[LangKey]
    ensures !(LangKey in storage && storage[LangKey] != "") ==> r == "en"
  {
    if LangKey in storage && storage[LangKey] != "" then storage[LangKey] else "en"
  }

  /** Two toggle clicks starting from a page that shows English or Arabic give the page back,
      as long as every translatable element has a non-empty translation for the starting
      language; the other language's text may be anything. */
  lemma TwoClicksRestore(s: seq<Element>, current: string)
    requires current == "en" || current == "ar"
    requires Rendered(s, current)
    requires forall i :: 0 <= i < |s| && Translatable(s[i]) ==> s[i].data[current] != ""
    ensures Flip(Flip(current)) == current
    ensures ApplyAll(ApplyAll(s, Flip(current)), Flip(Flip(current))) == s
  {
    var other := Flip(current);
    forall i | 0 <= i < |s| ensures ApplyToElement(ApplyToElement(s[i], other), current) == s[i] {
      if Translatable(s[i]) {
        LastLanguageWins(s[i], other, current);
      }
    }
  }

  /** Without the non-empty requirement two clicks need not restore the page: an element
      whose English text is empty keeps its Arabic text after going to Arabic and back. */
  lemma EmptyTranslationBreaksRoundTrip()
    ensures var e := Element(map["en" := "", "ar" := "marhaba"], [Text("Home")]);
      && Rendered([e], "en")
      && ApplyAll(ApplyAll([e], Flip("en")), Flip(Flip("en"))) != [e]
  {
    var e := Element(map["en" := "", "ar" := "marhaba"], [Text("Home")]);
    assert !HasElementChild(e.children);
    assert ApplyAll(ApplyAll([e], "ar"), "en")[0].children == [Text("marhaba")];
  }

  /** A reload starts again from the markup `m` and applies the stored language. When every
      translatable element has a non-empty translation for it, that gives the page the click
      produced, whichever language `prev` the page showed before the click. */
  lemma ReloadFromMarkup(m: seq<Element>, storage: map<string, string>, prev: string, lang: string)
    requires lang != ""
    requires forall i :: 0 <= i < |m| && Translatable(m[i]) ==> lang in m[i].data && m[i].data[lang] != ""
    ensures SavedLang(storage[LangKey := lang]) == lang
    ensures ApplyAll(m, SavedLang(storage[LangKey := lang])) == ApplyAll(ApplyAll(m, prev), lang)
  {
    forall i | 0 <= i < |m| ensures ApplyToElement(m[i], lang) == ApplyToElement(ApplyToElement(m[i], prev), lang) {
      if Translatable(m[i]) {
        LastLanguageWins(m[i], prev, lang);
      }
    }
  }

  /** Without that requirement the reloaded page can differ: an element whose English text
      is empty shows the markup's text after a reload in English, but keeps its Arabic text
      after a click from Arabic to English. */
  lemma ReloadDiffersWithEmptyTranslation()
    ensures var m := [Element(map["en" := "", "ar" := "marhaba"], [Text("Home")])];
      ApplyAll(m, "en") != ApplyAll(ApplyAll(m, "ar"), "en")
  {
    var m := [Element(map["en" := "", "ar" := "marhaba"], [Text("Home")])];
    assert !HasElementChild(m[0].children);
    assert ApplyAll(m, "en")[0].children == [Text("Home")];
    assert ApplyAll(ApplyAll(m, "ar"), "en")[0].children == [Text("marhaba")];
  }

  /** The document root, the language toggle and the storage the switcher works on. */
  class Page {
    var lang: Option<string>      // the `lang` attribute of `<html>`
    var dir: Option<string>       // the `dir` attribute of `<html>`
    const hasToggle: bool         // whether `#langToggle` exists
    var toggleLabel: string       // its text
    const elements: array<Element>
    var storage: map<string, string>

    constructor (lang0: Option<string>, dir0: Option<string>, hasToggle: bool, label0: string,
                 elements: array<Element>, storage0: map<string, string>)
      ensures lang == lang0 && dir == dir0 && toggleLabel == label0 && storage == storage0
      ensures this.hasToggle == hasToggle && this.elements == elements
    {
      lang, dir, toggleLabel, storage := lang0, dir0, label0, storage0;
      this.hasToggle, this.elements := hasToggle, elements;
    }

    /** `setLanguage(l)`: any string is written to `lang`; `dir` is `rtl` and the label `AR`
        exactly for `ar`; then every translatable element is rewritten in document order. */
    method SetLanguage(l: string)
      modifies this, elements
      ensures lang == Some(l)
      ensures dir == Some(if l == "ar" then "rtl" else "ltr")
      ensures toggleLabel == if hasToggle then (if l == "ar" then "AR" else "EN") else old(toggleLabel)
      ensures elements[..] == ApplyAll(old(elements[..]), l)
      ensures storage == old(storage)
    {
      lang := Some(l);
      if l == "ar" {
        dir := Some("rtl");
        if hasToggle { toggleLabel := "AR"; }
      } else {
        dir := Some("ltr");
        if hasToggle { toggleLabel := "EN"; }
      }
      var i := 0;
      while i < elements.Length
        modifies elements
        invariant 0 <= i <= elements.Length
        invariant forall j :: 0 <= j < i ==> elements[j] == ApplyToElement(old(elements[j]), l)
        invariant forall j :: i <= j < elements.Length ==> elements[j] == old(elements[j])
      {
        elements[i] := ApplyToElement(elements[i], l);
        i := i + 1;
      }
    }

    /** Script load and `DOMContentLoaded`: `setLanguage(localStorage.getItem(LANG_KEY) || 'en')`. */
    method Load()
      modifies this, elements
      ensures lang == Some(SavedLang(old(storage)))
      ensures dir == Some(if SavedLang(old(storage)) == "ar" then "rtl" else "ltr")
      ensures toggleLabel == if hasToggle then (if SavedLang(old(storage)) == "ar" then "AR" else "EN") else old(toggleLabel)
      ensures elements[..] == ApplyAll(old(elements[..]), SavedLang(old(storage)))
      ensures storage == old(storage)
    {
      SetLanguage(SavedLang(storage));
    }

    /** The toggle's click handler: flip the current language, apply it, store it. */
    method Click()
      requires hasToggle
      modifies this, elements
      ensures lang == Some(Flip(CurrentLang(old(lang))))
      ensures dir == Some(if CurrentLang(old(lang)) == "en" then "rtl" else "ltr")
      ensures toggleLabel == if CurrentLang(old(lang)) == "en" then "AR" else "EN"
      ensures elements[..] == ApplyAll(old(elements[..]), Flip(CurrentLang(old(lang))))
      ensures storage == old(storage)[LangKey := Flip(CurrentLang(old(lang)))]
      ensures SavedLang(storage) == Flip(CurrentLang(old(lang)))
    {
      var newLang := Flip(CurrentLang(lang));
      SetLanguage(newLang);
      storage := storage[LangKey := newLang];
    }

    /** Two clicks on a page showing English or Arabic restore its language and its text. */
    method ClickTwice()
      requires hasToggle
      requires lang == Some("en") || lang == Some("ar")
      requires Rendered(elements[..], lang.value)
      requires forall i :: 0 <= i < elements.Length && Translatable(elements[i]) ==>
        elements[i].data[lang.value] != ""
      modifies this, elements
      ensures lang == old(lang) && dir == Some(if lang.value == "ar" then "rtl" else "ltr")
      ensures toggleLabel == (if lang.value == "ar" then "AR" else "EN")
      ensures storage == old(storage)[LangKey := lang.value]
      ensures elements[..] == old(elements[..])
      ensures SavedLang(storage) == lang.value
    {
      ghost var s, current := elements[..], lang.value;
      Click();
      Click();
      TwoClicksRestore(s, current);
    }
  }
}
