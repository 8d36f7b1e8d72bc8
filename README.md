# HR Recruit page script, modelled in Dafny

The site's one script, `script.js`, wires the page's controls. Under its DOM calls are a few
small, deterministic rules. This project states them over plain values and proves what they
guarantee:

- **Language switcher.** `setLanguage` sets `lang`, `dir` and the toggle label, and rewrites
  every element that has both `data-en` and `data-ar`. The toggle's click handler flips
  `en`/`ar`, applies the result and stores it under `hrRecruitLang`. The stored choice is
  re-applied on `DOMContentLoaded`, and also at script load when the page has the toggle.
- **Theme toggle.** The `dark-mode` class on `<body>` is kept in step with the button's
  `aria-pressed`, icon and label, and with the value stored under `hrRecruitTheme`.
- **Mobile menu.** Five flags: the `active` class on the menu, the backdrop and the button, the
  body's `menu-open`, and `aria-expanded`. The reset at load, the toggle, the close clicks, a
  wide resize and Escape all move them together.
- **Active navigation link.** A link's `active` class depends on the last `/`-segment of its
  `href` and of the current path.
- **Home dropdowns.** After a click on a label, at most one is open; any other click closes
  them all.
- **Form validators.** The contact, login and register submit handlers check their fields in
  order, with a honeypot on the contact form. Both e-mail and phone regular expressions are
  written out as predicates.

Modules:

| module | file | what it holds |
|---|---|---|
| `Wrappers` | `wrappers.dfy` | `Option` |
| `Strings` | `strings.dfy` | `trim`, `\s`, `replace(/\s/g, '')`, `startsWith`, `split('/').pop()`, and the first and last index of a character |
| `Patterns` | `patterns.dfy` | the e-mail and phone expressions |
| `Language` | `language.dfy` | the switcher: element values and the `Page` class |
| `Theme` | `theme.dfy` | the `ThemeToggle` class |
| `MobileMenu` | `menu.dfy` | the `Menu` class |
| `Navigation` | `navigation.dfy` | the active-link loop |
| `HomeDropdown` | `dropdown.dfy` | the `Dropdowns` class |
| `Forms` | `forms.dfy` | the three validators |

State that the script changes in place is a class with `modifies` clauses:

- the document root, the language toggle and the page's elements (`array<Element>`);
- the theme button;
- the menu flags;
- the dropdowns' `open` classes (`array<bool>`);
- the links' `active` classes (`array<bool>`).

The validators change nothing but the page's error texts, the form message and its class,
and, on success, the form itself (the contact form is sent, the register form is reset). Each
is a method that returns what it writes: one error text per field, the form message, and
whether the form was sent or reset.

Behaviours of the script worth knowing:

- `setLanguage` writes any value it is given into `lang` and `dir`. A language without
  translations (`fr`, say) is not rejected; it just finds no text to write.
- `setLanguage` itself stores nothing; only the click handler stores.
- Storage is never guarded, so there is no fallback for unavailable storage.

Some behaviours follow from the script as written and are stated as such:

- Two language clicks give the page back if every element's translation for the starting
  language is non-empty. The round trip can break when that translation is empty and the
  other one is not. `Language.EmptyTranslationBreaksRoundTrip` shows such an element.
- For the same reason a reload, which starts again from the markup, reproduces the page a
  click produced when the stored language has a non-empty translation everywhere, and can
  differ otherwise (`Language.ReloadDiffersWithEmptyTranslation`).
- At start-up the theme code never removes a `dark-mode` class already in the markup. When
  nothing dark is stored, the button then says "Light" on a dark page, until the first click
  restores agreement.
- An unticked terms box on a register page without a terms error element fails the form,
  but no error is shown.

## Model

| member | source | states |
|---|---|---|
| Strings.Trim | script.js:263-266 | `trim()` yields the slice after the leading white space, everything after it is white space, and it has no white space at either end |
| Strings.TrimNoop | script.js:263-266 | trimming leaves alone a value with no white space at either end |
| Strings.TrimIdempotent | script.js:263-266 | trimming twice is trimming once |
| Strings.TrimEmptyIffAllSpace | script.js:278 | a field trims to `''` (reported as missing) exactly when it is all white space |
| Strings.IsSpace | script.js:299 | the `\s` class, which is also the set `trim` strips: the ECMAScript white-space and line-terminator code points |
| Strings.RemoveSpaces | script.js:299 | `replace(/\s/g, '')` leaves no white space, never lengthens, and leaves a value without white space unchanged |
| Strings.RemoveSpacesAppend | script.js:299 | removing white space from a concatenation removes it from each part separately, so the other characters keep their order |
| Strings.RemoveSpacesSingle | script.js:299 | one character is removed exactly when it is white space, and otherwise kept |
| Strings.StartsWith | script.js:185 | `startsWith`: the string begins with the prefix |
| Strings.IndexOf | script.js:287 | the index found holds the character and no earlier index does; none is found only when the character is absent |
| Strings.LastIndexOf | script.js:169 | the index found holds the character and no later index does; none is found only when the character is absent |
| Strings.LastSegment | script.js:169 | `split('/').pop()` is a suffix of the path without `/`, preceded by a `/` unless it is the whole path |
| Strings.LastSegmentOfJoin | script.js:174 | the last segment of `dir/name` is `name` for any `dir` |
| Patterns.EmailPattern | script.js:287 | the regular expression read literally: some split of the value into a plain local part, `@`, a plain domain part, `.` and a plain final part |
| Patterns.EmailSplit | script.js:287 | one such split, with the `@` and the separating dot at given positions, each part a non-empty run without white space or `@` |
| Patterns.IsEmail | script.js:287 | an accepted address has no white space and exactly one `@` |
| Patterns.EmailTestMatchesPattern | script.js:287 | the executable test accepts exactly the strings the regular expression `^[^\s@]+@[^\s@]+\.[^\s@]+$` matches |
| Patterns.Matches | script.js:298 | an anchored match of a sequence of pieces, each a character class repeated between its minimum and maximum, trying every count each piece allows |
| Patterns.IsPhone | script.js:298-299 | the phone test: the value without its white space matches the ten pieces of the phone expression (the constant `PhonePieces`): optional `+`, optional `(`, 1 to 4 digits, optional `)`, optional separator, optional `(`, 1 to 4 digits, optional `)`, optional separator, 1 to 9 digits |
| Patterns.MatchBounds | script.js:298 | a string matched by a sequence of bounded pieces has a length between their minimum and maximum, and every character is in some piece's class |
| Patterns.PhoneLengths | script.js:298 | the phone expression accepts strings of 3 to 24 characters |
| Patterns.PhoneShape | script.js:298-299 | an accepted phone number, without its white space, has 3 to 24 characters, each a digit or one of `+ ( ) - .` |
| Language.Translatable | script.js:67 | the selector `[data-en][data-ar]`: the element has both attributes |
| Language.HasElementChild | script.js:71 | `childElementCount !== 0`: some child is an element |
| Language.FirstText | script.js:75 | the position found is the first text node, and none is found only when no child is a text node |
| Language.Translation | script.js:68-69 | the `data-` attribute for the language, on an element that has both `data-en` and `data-ar`, when it is present and not empty |
| Language.ApplyToElement | script.js:67-81 | attributes and element children are kept in order; an element is unchanged without a non-empty translation; a childless element gets exactly the translation; otherwise only the first text node changes |
| Language.LastLanguageWins | script.js:67-81 | a later language with a translation overwrites exactly what an earlier one wrote |
| Language.ApplyIdempotent | script.js:67-81 | applying a language twice to an element is applying it once |
| Language.ApplyAll | script.js:67-81 | the rewrite keeps the number of elements and leaves every element without a translation unchanged |
| Language.SetLanguageIdempotent | script.js:43-44 | after `setLanguage(lang)` the page shows `lang`, and the second call on `DOMContentLoaded` changes nothing |
| Language.UnknownLanguageRewritesNothing | script.js:67-69 | a language no element has a `data-` attribute for rewrites no element |
| Language.CurrentLang | script.js:47 | the `lang` attribute when present and not empty, else `en`; never empty |
| Language.Flip | script.js:48 | the next language is `en` or `ar`, and `ar` exactly when the current one is `en` |
| Language.FlipTwice | script.js:46-50 | flipping twice gives back the language exactly when it is `en` or `ar` |
| Language.SavedLang | script.js:43 | the stored language when present and non-empty, and `en` otherwise; it is never empty |
| Language.TwoClicksRestore | script.js:46-50 | two clicks from a page showing `en` or `ar` give the same elements back when every translation for the starting language is non-empty |
| Language.EmptyTranslationBreaksRoundTrip | script.js:69 | with an empty `data-en`, going to Arabic and back leaves the Arabic text |
| Language.ReloadFromMarkup | script.js:43-50 | a reload applies the stored language to the markup, and gives the page the click produced whatever language the page showed before, when that language has a non-empty translation on every element |
| Language.ReloadDiffersWithEmptyTranslation | script.js:69 | with an empty `data-en`, reloading in English shows the markup's text while a click from Arabic to English keeps the Arabic text |
| Language.Page.SetLanguage | script.js:54-82 | `lang` is the argument; `dir` is `rtl` and the label `AR` exactly for `ar`, else `ltr` and `EN`; the elements become `ApplyAll` of the old ones; storage is unchanged |
| Language.Page.Load | script.js:43-44 | load applies the stored language, or `en`, to `lang`, `dir`, the toggle label and the elements, and leaves storage unchanged |
| Language.Page.Click | script.js:46-51 | a click applies the flip of the current language (`en` when absent) and stores it, so the next load reads it back |
| Language.Page.ClickTwice | script.js:46-51 | two clicks on a page showing `en` or `ar` restore its language, direction, toggle label and elements, and leave that language stored, when every translation for that language is non-empty |
| Theme.SavedDark | script.js:14-15 | the stored theme reads back as dark exactly when it is `dark` |
| Theme.StoredValue | script.js:31 | the stored value is `dark` exactly for dark mode, `light` otherwise |
| Theme.ThemeToggle.constructor | script.js:12-24 | a stored `dark` turns dark mode on and sets the button's `aria-pressed`, icon and label to dark, anything else sets them to light; the button agrees with the body unless the markup was already dark and nothing dark is stored |
| Theme.ThemeToggle.Click | script.js:26-32 | a click flips dark mode, leaves the button consistent with it, and stores it so a reload restores it |
| MobileMenu.Menu.constructor | script.js:109-116 | the menu starts closed with all five flags agreeing |
| MobileMenu.Menu.Toggle | script.js:119-135 | the five flags agree afterwards; the menu is open exactly when it was closed and no close was forced |
| MobileMenu.Menu.ToggleClick | script.js:137 | a click on the button flips the menu |
| MobileMenu.Menu.CloseClick | script.js:140-148 | a click on the backdrop, the close button or a link leaves the menu closed |
| MobileMenu.Menu.Resize | script.js:151-155 | a resize to 1024 pixels or wider closes an open menu; otherwise nothing changes |
| MobileMenu.Menu.KeyDown | script.js:158-162 | Escape closes an open menu; otherwise nothing changes |
| Navigation.CurrentPage | script.js:168-169 | the current page is the path's last segment, or `index.html` when that is empty; it is never empty and has no `/` |
| Navigation.DirectoryIsIndex | script.js:169 | a path ending in `/` is the home page |
| Navigation.SamePage | script.js:176-178 | the first test: the link's page is the current page, or both are the home page |
| Navigation.ServicesOfServicePage | script.js:185 | the second test: the current page starts with `service-` and the link is `services.html` |
| Navigation.LinkActive | script.js:176-187 | the class a link ends with: set by the first test, possibly set again by the second |
| Navigation.ActiveRule | script.js:176-187 | the two tests as written make a link active exactly when its last segment is the current page, or the page is a `service-` page and the link is `services.html` |
| Navigation.ActiveLinksAgree | script.js:172-187 | away from `service-` pages all active links name the same page |
| Navigation.MarkLink | script.js:173-187 | one pass of the loop body leaves the class set exactly when the two tests say so |
| Navigation.MarkActiveLinks | script.js:168-188 | every link's `active` class ends up set exactly by the rule above |
| HomeDropdown.Dropdowns.ClickLabel | script.js:414-433 | a label click toggles its dropdown and closes every other, so at most one is open |
| HomeDropdown.Dropdowns.ClickElsewhere | script.js:436-440 | any other click closes every dropdown |
| Forms.LengthError | script.js:278-284 | no error exactly when the trimmed value is non-empty and long enough; an empty value is reported as missing, a short one as too short |
| Forms.EmailError | script.js:287-294 | no error exactly when the trimmed value matches the e-mail expression; an empty value is reported as missing |
| Forms.ConfirmError | script.js:544-550 | no error exactly when the confirmation is non-empty and equals the password |
| Forms.ValidateContact | script.js:255-319 | a checked honeypot shows only the spam notice; otherwise each failing field gets its error text, and the form is sent, with the sending notice, exactly when all rules hold |
| Forms.ValidateLogin | script.js:446-485 | each failing field gets its error; success is announced exactly when there is none, else the message is cleared |
| Forms.ValidateRegister | script.js:491-565 | the form is reset, with the success message, exactly when all rules hold; each failing field gets its error text; the one silent failure is an unticked box without an error element |

## Left out

- Scroll and counter observers, the counter animation, ripple and particle effects, the
  header shadow on scroll, the typewriter, smooth scrolling and the back-to-top button.
  They concern timing and rendering.
- The timers: `showFormMessage` clears its message after five seconds, and `submitForm`'s
  simulated request says "sent" and resets the contact form later. The model records only
  the immediate "Sending message..." notice and that `submitForm` is called.
- `showFormMessage`'s `role` attribute and its scrolling.
- The border colour that the contact form's `showError` sets and `clearErrors` resets
  (script.js:321-342). On the contact form a field's border is red exactly when its error is
  `Some`. The login and register handlers write error texts only and never change a border.
- The real DOM and `localStorage`. Storage is a `map`. The body's class list and storage are
  shared by the theme, the menu and the language code, but each component touches its own
  class names and keys, so each keeps its own copy.
- Creating the backdrop and the close button (script.js:91-106). They are assumed present, as
  they are after that code runs.
- Errors thrown when an element the handlers look up is missing from the page.
- String lengths. JavaScript counts UTF-16 code units and Dafny counts characters, so
  `length < 2`, `< 6` and `< 10` differ for characters outside the Basic Multilingual Plane.
- HTML attribute names are case-insensitive; the `data-` keys are compared as given.
