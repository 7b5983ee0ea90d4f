/** The protected vocabulary: game-mechanic names that must survive translation unchanged. */
module Terms {
  import opened Text

  /** `MINECRAFT_TERMS`. */
  const MinecraftTerms: set<string> := {
    "Land", "land", "Chunk", "Chunks", "chunk", "chunks", "Biome", "biomes",
    "Nether", "End", "Overworld", "PvP", "PVP", "Cooldown", "Cooldowns",
    "Claim", "Claims", "claim", "claims", "Unclaim", "unclaim", "Spawn",
    "Mob", "Mobs", "XP", "Health", "Mana", "Region", "Block", "Blocks",
    "Item", "Items", "Inventory", "Server", "Player", "Players", "World",
    "Worlds"
  }

  /** `LOWER_TERMS`: the lower-case forms of the vocabulary. */
  const LowerTerms: set<string> := set t | t in MinecraftTerms :: ToLower(t)

  predicate IsLetters(s: string) {
    |s| > 0 && forall i :: 0 <= i < |s| ==> IsAsciiLetter(s[i])
  }

  /** Every word of `vocab` is a non-empty run of ASCII letters. */
  predicate LetterWords(vocab: set<string>) {
    forall t :: t in vocab ==> IsLetters(t)
  }

  /** Every protected term is a non-empty run of ASCII letters. */
  lemma {:induction false} TermsAreLetters()
    ensures LetterWords(MinecraftTerms)
  {
    forall t | t in MinecraftTerms ensures IsLetters(t) {
      LettersA();
      LettersB();
      LettersC();
      LettersD();
      LettersE();
    }
  }

  // The check of `TermsAreLetters`, a few terms at a time.

  lemma {:induction false} LettersA()
    ensures LetterWords({"Land", "land", "Chunk", "Chunks", "chunk", "chunks", "Biome", "biomes"})
  {
  }

  lemma {:induction false} LettersB()
    ensures LetterWords({"Nether", "End", "Overworld", "PvP", "PVP", "Cooldown", "Cooldowns"})
  {
  }

  lemma {:induction false} LettersC()
    ensures LetterWords({"Claim", "Claims", "claim", "claims", "Unclaim", "unclaim", "Spawn"})
  {
  }

  lemma {:induction false} LettersD()
    ensures LetterWords({"Mob", "Mobs", "XP", "Health", "Mana", "Region", "Block", "Blocks"})
  {
  }

  lemma {:induction false} LettersE()
    ensures LetterWords({"Item", "Items", "Inventory", "Server", "Player", "Players", "World", "Worlds"})
  {
  }

  /** So is the lower-case form of every protected term. */
  lemma {:induction false} LowerTermsAreLetters()
    ensures LetterWords(LowerTerms)
  {
    TermsAreLetters();
    forall u | u in LowerTerms ensures IsLetters(u) {
      var t :| t in MinecraftTerms && u == ToLower(t);
      LowerKeepsLetters(t);
    }
  }

  lemma {:induction false} LowerKeepsLetters(s: string)
    requires IsLetters(s)
    ensures IsLetters(ToLower(s))
  {
    ToLowerSpec(s);
    forall i | 0 <= i < |s| ensures IsAsciiLetter(ToLower(s)[i]) {
      assert IsAsciiLetter(s[i]);
    }
  }
}
