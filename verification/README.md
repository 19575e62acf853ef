# Portfolio site: verified model of its stateful logic

This project models, in Dafny, the few pieces of the portfolio web site that
carry state or rules worth stating precisely:

- the **testimonial carousel** (`TestimonialsSection`): a cyclic index over the
  non-empty testimonial list, moved by the next/prev buttons, the autoplay
  timer and the dot row;
- the **contact endpoint** (`POST /api/contact`): the request schema, the two
  mails it composes (the notification to the site owner and the auto-reply to
  the submitter), and the mapping of outcomes to 200/400/500 responses;
- the **contact form** (`ContactSection`): a five-field record edited one field
  at a time, posted on submit, cleared on success and kept on error;
- the **project modal** of the home page: the selected project and the open
  flag of the details dialog;
- the **navigation bar**: the mobile menu flag, the section links' active
  highlight and the light/dark theme toggle.

Files: `wrappers.dfy` (Option, Result), `testimonials.dfy` (module
`Testimonials`), `contact_route.dfy` (`ContactRoute`), `contact_form.dfy`
(`ContactForm`), `home.dfy` (`Home`), `navigation.dfy` (`Navigation`).

Components whose state the source updates in place are classes with
`modifies` clauses (`Carousel`, `ContactSection`, `HomePage`,
`NavigationBar`); their methods are tied to pure specification functions
(`NextIndex`, `Set`, `Step`, `ToggledTheme`) about which the lemmas are proved.
The schema and mail construction are functions; the request handler is a
method.

Modelling choices:

- JavaScript's `%` truncates toward zero; `Testimonials.JsRem` models it, and
  the carousel's arithmetic goes through it. `PrevNeedsShift` shows that
  without the added length, "prev" from index 0 would give -1.
- `goToTestimonial` stores whatever index it is given. `GoTo` does the same;
  staying in range is a separate predicate (`InRange`), which the dot row's
  indices `0..n-1` keep (`ClickDot`).
- The e-mail format rule of the validation library is the parameter
  `isEmail`; the mail transport is the parameter `delivers`, saying whether a
  mail is accepted; the process environment is the map `env`, and
  `process.env.X || "default"` falls back on unset and on empty values.
- Request bodies keep only the schema's five keys (the parser ignores any
  other key); a value is a string or "something else".
- Both `sendMail` calls are started before either is awaited, so both mails
  are attempted even when one of them fails; any failure yields the 500
  response. `HandleContact` returns the mails handed to the transport.
- The HTML bodies are kept as templates (fixed text and interpolated values);
  `Render` gives the exact string, the fixed text being spelled out in `Text`.
- The theme is the value read from and written to the theme provider; it is
  a field of `NavigationBar`.

## Model

| member | source | states |
|---|---|---|
| `Testimonials.Shipped` | client/src/lib/data.ts:58-83 | the testimonial list has three entries, with ids 1, 2, 3 |
| `Testimonials.JsRem` | client/src/components/testimonials-section.tsx:11-17 | the `%` used by the handlers: the dividend is the quotient truncated toward zero times n plus the result, which lies strictly between -n and n, non-negative for a non-negative dividend and non-positive for a non-positive one |
| `Testimonials.NextIndex` | client/src/components/testimonials-section.tsx:12 | the index after next stays in [0, n) from any index in [0, n) |
| `Testimonials.PrevIndex` | client/src/components/testimonials-section.tsx:16 | the index after prev stays in [0, n) from any index in [0, n) |
| `Testimonials.NextIndexSteps` | client/src/components/testimonials-section.tsx:12 | from an index in [0, n), next gives i+1, wrapping from n-1 to 0, and stays in [0, n) |
| `Testimonials.PrevIndexSteps` | client/src/components/testimonials-section.tsx:16 | from an index in [0, n), prev gives i-1, wrapping from 0 to n-1, and stays in [0, n) |
| `Testimonials.PrevNeedsShift` | client/src/components/testimonials-section.tsx:16 | without adding the length before `%`, prev from 0 would yield -1 for n > 1 |
| `Testimonials.PrevAfterNext` | client/src/components/testimonials-section.tsx:11-17 | prev undoes next on every in-range index |
| `Testimonials.NextAfterPrev` | client/src/components/testimonials-section.tsx:11-17 | next undoes prev on every in-range index |
| `Testimonials.NextTimesShifts` | client/src/components/testimonials-section.tsx:11-26 | k next steps (clicks or autoplay ticks) move the index to (i + k) mod n |
| `Testimonials.FullCycle` | client/src/components/testimonials-section.tsx:12 | n next steps return to the starting index |
| `Testimonials.Carousel.constructor` | client/src/components/testimonials-section.tsx:9 | the index starts at 0, which is in range for the non-empty list |
| `Testimonials.Carousel.Next` | client/src/components/testimonials-section.tsx:11-13 | the new index is NextIndex of the old one; in range stays in range; n-1 wraps to 0 |
| `Testimonials.Carousel.Prev` | client/src/components/testimonials-section.tsx:15-17 | the new index is PrevIndex of the old one; in range stays in range; 0 wraps to n-1 |
| `Testimonials.Carousel.GoTo` | client/src/components/testimonials-section.tsx:19-21 | the index becomes exactly the given one; it is in range iff that index is |
| `Testimonials.Carousel.Shown` | client/src/components/testimonials-section.tsx:68-87 | with the index in range, the testimonial read for display is an entry of the list |
| `Testimonials.NewSectionCarousel` | client/src/components/testimonials-section.tsx:6-9 | the section's carousel over the shipped list starts in range, on the first entry |
| `Testimonials.ClickDot` | client/src/components/testimonials-section.tsx:107-119 | clicking dot k of the rendered row keeps the index in range, shows entry k and highlights exactly dot k |
| `Testimonials.NextThenPrev` | client/src/components/testimonials-section.tsx:96-130 | pressing next then prev restores the index |
| `ContactRoute.SchemaRules` | server/routes.ts:6-12 | the schema checks each of the five keys exactly once: the e-mail by the e-mail rule, the message by a minimum of 10, the names and subject by a minimum of 1 |
| `ContactRoute.Parse` | server/routes.ts:18 | a body that is not an object is rejected, and every rejection reports at least one issue |
| `ContactRoute.FieldIssues` | server/routes.ts:6-12 | one schema entry reports no issue iff its field is present, a string, and passes its check; otherwise exactly one issue naming that field |
| `ContactRoute.SchemaIssuesEmpty` | server/routes.ts:6-12 | the schema reports no issue iff every one of its fields is valid |
| `ContactRoute.SchemaIssuesCollect` | server/routes.ts:6-12 | validation does not stop at the first failure: an issue is reported iff some entry reports it |
| `ContactRoute.ParseAcceptsExactly` | server/routes.ts:6-18 | parsing succeeds iff first name, last name and subject are non-empty strings, the e-mail passes the e-mail rule and the message has at least 10 characters; the payload holds the submitted strings |
| `ContactRoute.FailingFieldReported` | server/routes.ts:6-18 | a failing field makes parsing fail, and its issue is among the reported errors |
| `ContactRoute.EmptyRequiredRejected` | server/routes.ts:7-10 | an empty first name, last name or subject is rejected with that field's message |
| `ContactRoute.ShortMessageRejected` | server/routes.ts:11 | a message shorter than 10 characters is rejected with "Message must be at least 10 characters" |
| `ContactRoute.TenCharacterMessagePasses` | server/routes.ts:11 | a message of exactly 10 characters draws no issue |
| `ContactRoute.EnvOr` | server/routes.ts:33-34 | reading a variable with a fallback yields the variable's value when it is set and non-empty, and the fallback when it is unset or empty |
| `ContactRoute.BrLines` | server/routes.ts:42 | the rewritten message contains no line feed, and is longer by three characters per line feed |
| `ContactRoute.BrLinesKeepsSingleLine` | server/routes.ts:42 | a message without line feeds is left unchanged |
| `ContactRoute.BrLinesJoinsLines` | server/routes.ts:42 | the rewrite equals splitting at line feeds and joining with `<br>`: all other characters kept, in order |
| `ContactRoute.LinesRejoin` | server/routes.ts:42 | splitting at line feeds loses nothing: rejoining with a line feed gives the message back |
| `ContactRoute.BrLinesAppend` | server/routes.ts:42 | the rewrite distributes over concatenation |
| `ContactRoute.RenderContainsValue` | server/routes.ts:36-43 | every interpolated value occurs unchanged in the rendered template |
| `ContactRoute.Notification` | server/routes.ts:32-45 | the sender is FROM_EMAIL when set and non-empty, else "noreply@alexchen.dev"; the recipient is TO_EMAIL when set and non-empty, else "alex.chen@example.com"; replies go to the submitter's e-mail |
| `ContactRoute.NotificationSubject` | server/routes.ts:35 | the notification's subject is "Portfolio Contact: " followed by the submitted subject, which can be read back from it |
| `ContactRoute.AutoReply` | server/routes.ts:48-58 | the auto-reply goes to the submitter's e-mail, from the notification's sender, without reply-to |
| `ContactRoute.AutoReplyGreets` | server/routes.ts:52-55 | the rendered auto-reply contains the submitter's first name |
| `ContactRoute.NotificationCarriesSubmission` | server/routes.ts:36-43 | the rendered notification contains the first name, last name, e-mail, subject and the rewritten message |
| `ContactRoute.HandleContact` | server/routes.ts:16-85 | invalid body: 400, "Validation error", the issues, and no mail attempted; valid body: both mails attempted, notification first, and 200 with "Message sent successfully!" iff both are delivered, else 500 with the generic failure message |
| `ContactRoute.HandlerOutcomes` | server/routes.ts:16-85 | the status is 400 iff the body breaks a rule, 200 iff it is valid and both mails are delivered, and otherwise 500; the second mail goes to the submitted e-mail |
| `ContactForm.Set` | client/src/components/contact-section.tsx:91-93 | updating a field sets it to the new value and leaves the other four unchanged |
| `ContactForm.EditsLastWins` | client/src/components/contact-section.tsx:91-93 | after any series of keystrokes each field holds the last value typed into it, or its old value |
| `ContactForm.EditsReplay` | client/src/components/contact-section.tsx:91-93 | after any series of keystrokes the record is exactly the last value typed into each field (the old value where none was typed) |
| `ContactForm.ContactSection.constructor` | client/src/components/contact-section.tsx:49-55 | all five fields start empty |
| `ContactForm.ContactSection.HandleInputChange` | client/src/components/contact-section.tsx:91-93 | the record becomes the old one with that one field replaced |
| `ContactForm.ContactSection.HandleSubmit` | client/src/components/contact-section.tsx:86-89 | the posted record is the current form data, unmodified |
| `ContactForm.ContactSection.OnSuccess` | client/src/components/contact-section.tsx:64-76 | a success toast, and all five fields reset to empty |
| `ContactForm.ContactSection.OnError` | client/src/components/contact-section.tsx:77-83 | an error toast, and the form data unchanged |
| `ContactForm.ToBody` | client/src/components/contact-section.tsx:59-62 | the posted JSON body holds each field as a string |
| `ContactForm.SubmittedFormParsed` | server/routes.ts:6-18 | the server accepts a submitted form iff names and subject are non-empty, the e-mail passes and the message has 10 or more characters; the payload equals the form |
| `ContactForm.EmptyFormRejected` | client/src/components/contact-section.tsx:49-55 | the initial (empty) record, posted straight to the endpoint, is rejected with issues for both names, the subject and the message |
| `Home.Step` | client/src/pages/home.tsx:18-26 | after an event the dialog is open iff it was a selection, a selection selects that project, a close clears everything; the result is always consistent |
| `Home.ReplayLastWins` | client/src/pages/home.tsx:15-26 | after any series of events the state is determined by the last event alone |
| `Home.ReplayConsistent` | client/src/pages/home.tsx:15-26 | every reachable state has a project selected whenever the dialog is open |
| `Home.HomePage.constructor` | client/src/pages/home.tsx:15-16 | initially nothing is selected and the dialog is closed |
| `Home.HomePage.HandleProjectSelect` | client/src/pages/home.tsx:18-21 | selects the project and opens the dialog, keeping the invariant |
| `Home.HomePage.HandleModalClose` | client/src/pages/home.tsx:23-26 | closes the dialog and clears the selection, keeping the invariant |
| `Home.SelectTwice` | client/src/pages/home.tsx:18-21 | of two selections the last one wins |
| `Navigation.NavItems` | client/src/components/navigation.tsx:10-17 | six section links, no two with the same id |
| `Navigation.Highlights` | client/src/components/navigation.tsx:295-306 | link i is highlighted iff its id equals the active section |
| `Navigation.OneHighlight` | client/src/components/navigation.tsx:365-371 | with distinct ids exactly one link is highlighted when the active section is one of theirs, none otherwise |
| `Navigation.NavHighlightsAtMostOne` | client/src/components/navigation.tsx:10-17 | the six link ids are distinct, so at most one link is highlighted |
| `Navigation.ToggledTheme` | client/src/components/navigation.tsx:323 | the toggle yields "dark" exactly from "light", and "light" from every other value |
| `Navigation.ThemeTogglesBack` | client/src/components/navigation.tsx:323 | between "light" and "dark" two toggles restore the theme |
| `Navigation.NavigationBar.constructor` | client/src/components/navigation.tsx:144-147 | the menu starts closed |
| `Navigation.NavigationBar.ToggleMenu` | client/src/components/navigation.tsx:338 | the hamburger flips the menu flag and leaves the theme |
| `Navigation.NavigationBar.ScrollToSection` | client/src/components/navigation.tsx:205-211 | the menu ends closed whether or not the section exists; scrolling happens iff it exists |
| `Navigation.NavigationBar.ToggleTheme` | client/src/components/navigation.tsx:323 | the theme becomes ToggledTheme of the old one; the menu flag is kept |
| `Navigation.ToggleMenuTwice` | client/src/components/navigation.tsx:336-339 | two hamburger clicks restore the menu |

## Left out

- Animation, springs, scroll-linked transforms, parallax, the canvas particle network and the morphing hamburger's styling: presentation with floating-point interpolation, no state rules.
- Scroll progress and velocity in the navigation bar: DOM measurements and float division.
- The autoplay timer itself (start, 5-second period, cleanup on unmount): only the fact that each tick calls next is modelled (`NextTimesShifts` counts ticks and clicks alike).
- `Testimonials.Shipped`: the quoted testimonial texts are abbreviated; names, roles, initials and gradients are as listed.
- The SMTP transporter and its settings (host, port, credentials): foreign I/O; a send is the parameter `delivers`.
- The e-mail format rule: the parameter `isEmail`, since the validation library's rule is not part of this model.
- String lengths in the schema count characters; the validation library counts UTF-16 code units, which differ for characters outside the Basic Multilingual Plane.
- Validation messages for a missing or non-string field are the short forms "Required" and "Expected string", and a body that is not an object gets "Expected object"; the library's exact wording for a non-string value or a non-object body names the received type ("Expected object, received …").
- Logging of errors to the console, the concurrency of the two sends (modelled as both started, in order), and the order in which the transport completes them.
- The browser's constraint validation of the form (`required` on every input, `type="email"` on the e-mail input), which keeps `handleSubmit` from running on an incomplete form: not modelled, so `HandleSubmit` may be called in any state.
- The pending state of the form's mutation (the submit button is disabled while a post is in flight), the HTTP client and the query library: not part of this model beyond the success and error callbacks.
- The theme provider and the scroll-spy hook: not part of this model; the theme is a field of `NavigationBar` and the active section an input.
- The resume download endpoint: a fixed stub response.
- Purely presentational sections (hero, skills, about, projects grid, project dialog contents) and the static project and skill records.
