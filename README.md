# Copy-on-write greeting

This project models the one piece of logic in a small Rust program about
`std::borrow::Cow`: the function `ensure_hello`. A `Cow<str>` is a text that is
either `Borrowed` from storage its holder does not own or `Owned` by the holder,
and reads the same either way. `ensure_hello` hands its input back unchanged,
with its tag, when the text already starts with `"hello"`. Otherwise it builds
a new `Owned` text made of `"hello, "` followed by the original text. The point
of the program is that a borrowed, already greeted text is never copied.

- `prefix.dfy`, module `Prefix`: the prefix test `starts_with` as an
  element-by-element comparison, proved equal to Dafny's prefix relation.
- `cow.dfy`, module `Cow`: the `Cow` datatype, its read-through `Content`,
  `EnsureHello`, and the properties the program relies on.

Text is `seq<char>`. The greeting is ASCII, so testing a prefix by characters
and testing it by UTF-8 bytes give the same answer.

`ensure_hello` hard-codes the prefix `"hello"` and the separator `", "`; the
model does the same and does not generalise to other prefixes.

## Model

| member | source | states |
|---|---|---|
| Prefix.StartsWithIsPrefix | cow/src/main.rs:27 | the element-by-element `starts_with` test holds exactly when the pattern is a prefix of the text (both directions) |
| Prefix.StartsWithOwnPrefix | cow/src/main.rs:33 | a text built as the pattern followed by anything starts with the pattern, so a text built by the `format!` starts with "hello, " |
| Prefix.ShorterNeverMatches | cow/src/main.rs:27 | a text shorter than the pattern never starts with it |
| Prefix.StartsWithTransitive | cow/src/main.rs:27-33 | a text that starts with "hello, " starts with "hello", and in general starting with a text that starts with `p` means starting with `p` |
| Cow.EnsureHello | cow/src/main.rs:26-35 | the result's text is either the input's text or "hello, " followed by it; a borrowed result is the input itself |
| Cow.AlwaysGreeted | cow/src/main.rs:27-33 | whatever the input, the result's text starts with "hello" |
| Cow.ContentIgnoresTag | cow/src/main.rs:27 | reading through a `Borrowed` and an `Owned` value with the same text gives that text for both; it holds by construction, since both variants share the field `s` |
| Cow.PassThrough | cow/src/main.rs:27-29 | the input comes back identical, tag included, if and only if its text starts with "hello" |
| Cow.PromotesToOwned | cow/src/main.rs:30-33 | a text without the greeting always comes back `Owned`, whatever its tag, reading "hello, " followed by the original text |
| Cow.BorrowedOnlyIfUntouched | cow/src/main.rs:29-33 | the result is `Borrowed` if and only if the input was `Borrowed` and already greeted; an `Owned` input never comes back `Borrowed` |
| Cow.GrowsByNothingOrSeven | cow/src/main.rs:29-33 | the result text is either the input text, of the same length, or a different text exactly seven characters longer |
| Cow.Idempotent | cow/src/main.rs:26-35 | applying the function to its own result changes nothing, tag included |
| Cow.BorrowedWorld | cow/src/main.rs:39-40 | a borrowed "world" comes back as an owned "hello, world" |
| Cow.OwnedRust | cow/src/main.rs:44-45 | an owned "rust" comes back as an owned "hello, rust" |
| Cow.EmptyText | cow/src/main.rs:33 | the empty text, borrowed or owned, comes back as an owned "hello, " |
| Cow.BorrowedHelloStays | cow/src/main.rs:27-29 | a borrowed "hello there" or "hellothere" comes back borrowed and unchanged; nothing needs to follow "hello" |

## Left out

- Printing the two results in `main` (cow/src/main.rs:41, 46): output to the terminal.
- Lifetimes and the borrow checker's guarantee that borrowed text outlives the value (cow/src/main.rs:26): Dafny has no borrowing, so "no copy was made" is stated only as keeping the `Borrowed` tag.
- Allocation and ownership of memory: a value-level model sees only the tag.
- The rest of `std::borrow::Cow` (`ToOwned`, `to_mut`, `into_owned`), described in the comment at cow/src/main.rs:3-21: the program never calls it, and the standard library is not part of this model.
- The UTF-8 byte encoding of `str`: text is a sequence of characters, which gives the same prefix test because "hello" is ASCII.
