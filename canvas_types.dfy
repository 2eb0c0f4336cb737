/** The value types of the canvas (backend/canvas.h). */
module CanvasTypes {
  import opened Common

  /** `PixelMood` values; a mood byte outside them is kept as it is. */
  const HAPPY: uint8 := 0
  const SAD: uint8 := 1
  const CALM: uint8 := 2
  const ENERGETIC: uint8 := 3

  /** One cell of the grid: where it is, its colour and mood, and who placed it when. */
  datatype Pixel = Pixel(x: int32, y: int32, color: uint8, mood: uint8, timestamp: uint64, userId: uint32)

  datatype Season = Bloom | Frost | Warm | Calm

  datatype Quest = Quest(description: string, progress: int, target: int, completed: bool)

  datatype ChatMessage = ChatMessage(username: string, message: string, timestamp: uint64)

  datatype EpisodeInfo = EpisodeInfo(episodeNumber: uint32, timeRemaining: int, isActive: bool, isFrozen: bool)
}
