/** String helpers shared by the command handlers: Rust's `str::split` on one
    character, `[&str]::join`, `str::find` on one character and
    `str::replace(c, "")`, each with the facts the handlers rely on. */
module Text {

  datatype Option<T> = None | Some(value: T)

  datatype Result<T> = Ok(value: T) | Err(message: string)

  function Min(a: nat, b: nat): nat { if a <= b then a else b }

  /** Index of the first `c` in `s` at or after `i`, or `|s|` when there is
      none (IndexFromFinds). */
  function IndexFrom(s: string, i: nat, c: char): (n: nat)
    requires i <= |s|
    ensures i <= n <= |s|
    decreases |s| - i
  {
    if i == |s| then i
    else if s[i] == c then i
    else IndexFrom(s, i + 1, c)
  }

  /** IndexFrom stops at the first `c`, passing over none. */
  lemma {:induction false} IndexFromFinds(s: string, i: nat, c: char)
    requires i <= |s|
    ensures forall j :: i <= j < IndexFrom(s, i, c) ==> s[j] != c
    ensures IndexFrom(s, i, c) < |s| ==> s[IndexFrom(s, i, c)] == c
    decreases |s| - i
  {
    if i < |s| && s[i] != c {
      IndexFromFinds(s, i + 1, c);
    }
  }

  /** That characterisation pins IndexFrom down. */
  lemma {:induction false} IndexFromIs(s: string, i: nat, c: char, n: nat)
    requires i <= n <= |s|
    requires forall j :: i <= j < n ==> s[j] != c
    requires n < |s| ==> s[n] == c
    ensures IndexFrom(s, i, c) == n
    decreases n - i
  {
    if i < n {
      IndexFromIs(s, i + 1, c, n);
    }
  }

  /** Rust's `s.find(c)`, with `|s|` for `None`. */
  function IndexOf(s: string, c: char): (n: nat)
    ensures n <= |s|
    ensures forall j :: 0 <= j < n ==> s[j] != c
    ensures n == |s| <==> c !in s
    ensures n < |s| ==> s[n] == c
  {
    IndexFromFinds(s, 0, c);
    IndexFrom(s, 0, c)
  }

  /** Rust's `s.split(c)`: the pieces between occurrences of `c`, empty pieces
      included; a string without `c` (even the empty one) is a single piece. */
  function Split(s: string, c: char): (pieces: seq<string>)
    ensures |pieces| >= 1
    ensures forall k :: 0 <= k < |pieces| ==> c !in pieces[k]
    decreases |s|
  {
    if s == [] then [[]]
    else
      var rest := Split(s[1..], c);
      if s[0] == c then [[]] + rest
      else [[s[0]] + rest[0]] + rest[1..]
  }

  /** Rust's `pieces.join(sep)`. */
  function Join(pieces: seq<string>, sep: string): string
    decreases |pieces|
  {
    if |pieces| == 0 then []
    else if |pieces| == 1 then pieces[0]
    else pieces[0] + sep + Join(pieces[1..], sep)
  }

  /** Rust's `pieces.concat()` (`join("")`). */
  function Concat(pieces: seq<string>): string
    decreases |pieces|
  {
    if pieces == [] then [] else pieces[0] + Concat(pieces[1..])
  }

  /** Rust's `s.replace(c, "")` for a one-character pattern. */
  function Remove(s: string, c: char): (r: string)
    ensures c !in r
    decreases |s|
  {
    if s == [] then []
    else if s[0] == c then Remove(s[1..], c)
    else [s[0]] + Remove(s[1..], c)
  }

  /** Joining the split pieces with the separator gives back the text. */
  lemma {:induction false} JoinSplit(s: string, c: char)
    ensures Join(Split(s, c), [c]) == s
    decreases |s|
  {
    if s != [] {
      var rest := Split(s[1..], c);
      JoinSplit(s[1..], c);
      if s[0] == c {
        calc {
          Join(Split(s, c), [c]);
          Join([[]] + rest, [c]);
          [] + [c] + Join(rest, [c]);
          { assert ([[]] + rest)[1..] == rest; }
          [c] + s[1..];
          s;
        }
      } else {
        var pieces := [[s[0]] + rest[0]] + rest[1..];
        if |rest| == 1 {
          assert Join(pieces, [c]) == [s[0]] + rest[0];
          assert Join(rest, [c]) == rest[0];
        } else {
          assert pieces[1..] == rest[1..];
          assert Join(rest, [c]) == rest[0] + [c] + Join(rest[1..], [c]);
          assert Join(pieces, [c]) == [s[0]] + rest[0] + [c] + Join(rest[1..], [c]);
        }
      }
    }
  }

  /** Splitting a join of separator-free pieces gives back the pieces. */
  lemma {:induction false} SplitJoin(pieces: seq<string>, c: char)
    requires |pieces| >= 1
    requires forall k :: 0 <= k < |pieces| ==> c !in pieces[k]
    ensures Split(Join(pieces, [c]), c) == pieces
    decreases |pieces|
  {
    if |pieces| == 1 {
      SplitFree(pieces[0], c);
    } else {
      SplitJoin(pieces[1..], c);
      SplitPrefix(pieces[0], [c] + Join(pieces[1..], [c]), c);
      assert pieces[0] + [c] + Join(pieces[1..], [c]) == pieces[0] + ([c] + Join(pieces[1..], [c]));
      assert ([c] + Join(pieces[1..], [c]))[1..] == Join(pieces[1..], [c]);
      var tail := [c] + Join(pieces[1..], [c]);
      assert tail[0] == c && tail[1..] == Join(pieces[1..], [c]);
      assert Split(tail, c) == [[]] + pieces[1..];
      assert pieces[0] + [] == pieces[0];
      assert [pieces[0]] + pieces[1..] == pieces;
    }
  }

  /** A string without `c` splits into itself alone. */
  lemma {:induction false} SplitFree(w: string, c: char)
    requires c !in w
    ensures Split(w, c) == [w]
    decreases |w|
  {
    if w != [] {
      SplitFree(w[1..], c);
      assert [w[0]] + w[1..] == w;
    }
  }

  /** Splitting `w + t` where `w` holds no `c`: `w` glues onto the first piece of `t`. */
  lemma {:induction false} SplitPrefix(w: string, t: string, c: char)
    requires c !in w
    ensures Split(w + t, c) == [w + Split(t, c)[0]] + Split(t, c)[1..]
    decreases |w|
  {
    if w != [] {
      SplitPrefix(w[1..], t, c);
      var st := Split(t, c);
      assert (w + t)[0] == w[0] != c;
      assert (w + t)[1..] == w[1..] + t;
      var rest := Split(w[1..] + t, c);
      assert rest[0] == w[1..] + st[0] && rest[1..] == st[1..];
      assert Split(w + t, c) == [[w[0]] + rest[0]] + rest[1..];
      assert [w[0]] + (w[1..] + st[0]) == w + st[0];
      assert [[w[0]] + rest[0]] == [w + st[0]];
    } else {
      var st := Split(t, c);
      assert w + t == t && w + st[0] == st[0];
      assert [st[0]] + st[1..] == st;
    }
  }

  /** A text split at its first `c`: the pieces are the head followed by the split of the remainder. */
  lemma {:induction false} SplitAtFirst(s: string, c: char)
    requires c in s
    ensures Split(s, c) == [s[..IndexOf(s, c)]] + Split(s[IndexOf(s, c) + 1..], c)
  {
    var n := IndexOf(s, c);
    var t := s[n + 1..];
    assert s == s[..n] + ([c] + t);
    SplitPrefix(s[..n], [c] + t, c);
    assert ([c] + t)[0] == c && ([c] + t)[1..] == t;
    assert Split([c] + t, c) == [[]] + Split(t, c);
    assert s[..n] + [] == s[..n];
  }

  /** Concatenation appends one piece at the tail. */
  lemma {:induction false} ConcatSnoc(pieces: seq<string>, last: string)
    ensures Concat(pieces + [last]) == Concat(pieces) + last
    decreases |pieces|
  {
    if pieces == [] {
      assert [] + [last] == [last];
    } else {
      ConcatSnoc(pieces[1..], last);
      assert (pieces + [last])[1..] == pieces[1..] + [last];
    }
  }

  /** A text without `c` is left as it is. */
  lemma {:induction false} RemoveAbsent(s: string, c: char)
    requires c !in s
    ensures Remove(s, c) == s
    decreases |s|
  {
    if s != [] {
      RemoveAbsent(s[1..], c);
      assert [s[0]] + s[1..] == s;
    }
  }

  /** Removing `c` distributes over concatenation. */
  lemma {:induction false} RemoveAppend(a: string, b: string, c: char)
    ensures Remove(a + b, c) == Remove(a, c) + Remove(b, c)
    decreases |a|
  {
    if a == [] {
      assert a + b == b;
    } else {
      var ab := a + b;
      assert ab[0] == a[0] && ab[1..] == a[1..] + b;
      RemoveAppend(a[1..], b, c);
      if a[0] == c {
        calc {
          Remove(ab, c);
          Remove(a[1..] + b, c);
          Remove(a[1..], c) + Remove(b, c);
        }
      } else {
        calc {
          Remove(ab, c);
          [a[0]] + Remove(a[1..] + b, c);
          [a[0]] + (Remove(a[1..], c) + Remove(b, c));
          ([a[0]] + Remove(a[1..], c)) + Remove(b, c);
        }
      }
    }
  }

  /** Exactly the occurrences of `c` are dropped: every other character keeps
      its count, and a lone `c` becomes nothing. */
  lemma {:induction false} RemoveDropsOnly(s: string, c: char)
    ensures multiset(Remove(s, c)) == multiset(s)[c := 0]
    ensures Remove([c], c) == []
    decreases |s|
  {
    if s != [] {
      RemoveDropsOnly(s[1..], c);
      assert s == [s[0]] + s[1..];
      assert multiset(s) == multiset{s[0]} + multiset(s[1..]);
    }
  }


  /** A handler's arguments: `content.split(' ').skip(1)`, the space-separated
      pieces after the command word, empty pieces included. There are some
      exactly when the message holds a space. */
  function CommandArgs(content: string): (args: seq<string>)
    ensures args != [] <==> ' ' in content
  {
    if ' ' in content then
      SplitAtFirst(content, ' ');
      Split(content, ' ')[1..]
    else
      SplitFree(content, ' ');
      Split(content, ' ')[1..]
  }

  /** The arguments are the split of everything after the command word. */
  lemma CommandArgsOf(command: string, text: string)
    requires ' ' !in command
    ensures CommandArgs(command + [' '] + text) == Split(text, ' ')
  {
    var content := command + [' '] + text;
    assert content[|command|] == ' ';
    IndexFromIs(content, 0, ' ', |command|);
    SplitAtFirst(content, ' ');
    assert content[|command| + 1..] == text;
  }

  /** A command word followed by space-free words gives exactly those words. */
  lemma CommandArgsWords(command: string, words: seq<string>)
    requires ' ' !in command
    requires |words| >= 1
    requires forall k :: 0 <= k < |words| ==> ' ' !in words[k]
    ensures CommandArgs(command + [' '] + Join(words, " ")) == words
  {
    CommandArgsOf(command, Join(words, " "));
    SplitJoin(words, ' ');
  }
}
