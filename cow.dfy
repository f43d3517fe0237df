/** A copy-on-write string (`Cow<str>`) and `ensure_hello`, which puts a greeting in
    front of a text unless it already has one, copying only when it must. */
module Cow {
  import opened Prefix

  /** The text a greeted value must start with. */
  const HELLO: string := "hello"

  /** What `ensure_hello` puts in front of a text that lacks the greeting: the
      greeting followed by a comma and a space. */
  const GREETING: string := "hello, "

  /** A text that is either borrowed from storage the holder does not own, or owned
      by the holder. Dafny has no borrowing: the tag is all that tells the two apart,
      and keeping the tag stands for "no copy was made". */
  datatype Cow = Borrowed(s: string) | Owned(s: string) {

    /** The text a reader sees through the value, the same for both variants. */
    function Content(): (t: string) {
      s
    }
  }

  /** Returns `c` itself, tag included, when its text already starts with "hello";
      otherwise a new owned text made of "hello, " followed by the text of `c`. */
  function EnsureHello(c: Cow): (r: Cow)
    ensures r.Content() == c.Content() || r.Content() == GREETING + c.Content()
    ensures r.Borrowed? ==> r == c
  {
    if StartsWith(c.Content(), HELLO) then
      c
    else
      Owned(GREETING + c.Content())
  }

  /** Whatever the input, the result's text starts with "hello": either it already
      did, or the greeting was put in front of it. */
  lemma AlwaysGreeted(c: Cow)
    ensures StartsWith(EnsureHello(c).Content(), HELLO)
  {
    if !StartsWith(c.Content(), HELLO) {
      StartsWithOwnPrefix(GREETING, c.Content());
      StartsWithTransitive(GREETING + c.Content(), GREETING, HELLO);
    }
  }

  /** Reading through the value does not depend on its tag. */
  lemma ContentIgnoresTag(t: string)
    ensures Borrowed(t).Content() == Owned(t).Content() == t
  {
  }

  /** The value comes back untouched, tag included, exactly when its text already
      starts with "hello". */
  lemma PassThrough(c: Cow)
    ensures EnsureHello(c) == c <==> StartsWith(c.Content(), HELLO)
  {
  }

  /** A text without the greeting always comes back owned, whatever its tag was, and
      reads as "hello, " followed by the original text. */
  lemma PromotesToOwned(c: Cow)
    requires !StartsWith(c.Content(), HELLO)
    ensures EnsureHello(c).Owned?
    ensures EnsureHello(c).Content() == GREETING + c.Content()
  {
  }

  /** The result is borrowed exactly when the input was borrowed and already greeted:
      an owned value never turns into a borrowed one. */
  lemma BorrowedOnlyIfUntouched(c: Cow)
    ensures EnsureHello(c).Borrowed? <==> c.Borrowed? && StartsWith(c.Content(), HELLO)
    ensures c.Owned? ==> EnsureHello(c).Owned?
  {
  }

  /** The text is either unchanged or exactly seven characters longer. */
  lemma GrowsByNothingOrSeven(c: Cow)
    ensures var n, m := |c.Content()|, |EnsureHello(c).Content()|;
      (EnsureHello(c).Content() == c.Content() && m == n) ||
      (EnsureHello(c).Content() != c.Content() && m == n + 7)
  {
  }

  /** Greeting an already greeted value changes nothing, tag included. */
  lemma Idempotent(c: Cow)
    ensures EnsureHello(EnsureHello(c)) == EnsureHello(c)
  {
    AlwaysGreeted(c);
  }

  /** The borrowed "world" of the driver comes back owned as "hello, world". */
  lemma BorrowedWorld()
    ensures EnsureHello(Borrowed("world")) == Owned("hello, world")
  {
  }

  /** The owned "rust" of the driver comes back owned as "hello, rust". */
  lemma OwnedRust()
    ensures EnsureHello(Owned("rust")) == Owned("hello, rust")
  {
  }

  /** The empty text, borrowed or owned, comes back owned as "hello, ". */
  lemma EmptyText()
    ensures EnsureHello(Borrowed("")) == Owned("hello, ")
    ensures EnsureHello(Owned("")) == Owned("hello, ")
  {
  }

  /** A borrowed text that already starts with "hello" stays borrowed and unchanged;
      no separator after "hello" is required. */
  lemma BorrowedHelloStays()
    ensures EnsureHello(Borrowed("hello there")) == Borrowed("hello there")
    ensures EnsureHello(Borrowed("hellothere")) == Borrowed("hellothere")
  {
    StartsWithOwnPrefix(HELLO, " there");
    StartsWithOwnPrefix(HELLO, "there");
  }
}
